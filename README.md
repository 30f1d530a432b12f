# modbus_device, modelled in Dafny

`modbus_device` gives applications access to the registers of a Modbus
device by name. The device's registers are described by a catalog that maps
each name to a descriptor: address, length in 16-bit words, data type, and
whether a dump reads it. The library offers three things.

- A codec between raw 16-bit words and typed register values, in both
  directions.
- A batch read. It sorts the requested registers by address, groups them
  into windows of contiguous registers, reads each window in one request,
  and decodes every register from its share of the reply.
- A bridge to a generic "industrial device" interface. It translates the
  library's errors and values into the consumer's taxonomy.

The asynchronous device (`ModbusDeviceAsync`) is the main implementation.
The older synchronous device (`ModbusDevice`) has its own read loop, and
that loop differs.

The model is split into modules, one per concern of the source:

| module | file | models |
|---|---|---|
| `Register` | register.dfy | descriptors and data-type tags; the `u16` word type |
| `Errors` | errors.dfy | the seven-variant access-layer error type and its `From` conversions |
| `Types` | types.dfy | `RegisterValue`, decoding (`Decode`) and encoding (`Encode`) |
| `Transport` | transport.dfy | the device at the other end of the link, as word memories, and its replies |
| `Planner` | planner.dfy | the stable sort by address, the async window planner `Windows`, and the sync scan `SyncScan` |
| `Batch` | batch.dfy | reading one window, running a plan of windows, the full batch read of each device |
| `Access` | access.dfy | single reads, reads by name, dumps, writes; catalog key iteration |
| `Utils` | utils.dfy | building a catalog from parsed definition records |
| `Industrial` | industrial.dfy | the error and value translations into the consumer's types |
| `DeviceAsync` | device_async.dfy | the class `ModbusDeviceAsync` |
| `DeviceSync` | device_sync.dfy | the class `ModbusDevice` |

The remote device is a value, `Transport.Remote`. It holds a word map for
the input space, a word map for the holding space, and a flag saying
whether the link carries frames. Its replies follow the Modbus client
library:

- a dead link gives a transport error (broken pipe);
- a quantity outside 1..125 words for a read, or 1..123 words for a write,
  gives the exception `IllegalDataValue`;
- an address that is not mapped gives the exception `IllegalDataAddress`;
- otherwise the reply is the stored words.

Each device class records the requests it puts on the link in a ghost
`log`. Every read and write method states:

- its result, as a function of the remote and its arguments;
- the exact requests it appends to the log.

The pure functions of `Batch` and `Access` are the reference definitions.
The lemmas beside them state what the reads and writes promise:

- which names appear in a result, and with which value;
- which requests are sent, and in what order;
- which errors stop a batch;
- what a write leaves in the device.

## Model

| member | source | states |
|---|---|---|
| Errors.FromException | src/errors.rs:16-20 | `From<Exception>`: wraps the exception in the `Exception` variant (its properties: Errors.FromConversionsDistinct) |
| Errors.FromIoError | src/errors.rs:21-25 | `From<std::io::Error>`: wraps the error in the `IOerror` variant (Errors.FromConversionsDistinct) |
| Errors.FromTokioError | src/errors.rs:26-30 | `From<tokio_modbus::Error>`: wraps the client error in the `ModbusError` variant (Errors.FromConversionsDistinct) |
| Errors.FromSliceError | src/errors.rs:31-35 | `From<TryFromSliceError>`: wraps the error in the `TryFromSliceError` variant (Errors.FromConversionsDistinct) |
| Errors.FromConversionsDistinct | src/errors.rs:16-35 | each conversion is injective and no two conversions give the same error, so the converted error determines its cause. None gives ConversionError, DeviceNotConnectedError or RegisterDoesNotExistError |
| Transport.Words | src/modbus_device_async.rs:87-88 | the words a read of the link returns: those stored from the address on (specified by Transport.ReadReply) |
| Transport.Store | src/modbus_device_async.rs:108 | the holding memory after a write of several registers (specified by Transport.WriteThenRead) |
| Transport.ReadReply | src/modbus_device_async.rs:86-97 | a read reply is a transport error exactly when the link is down. It is a word sequence exactly when the link is up, 1 <= count <= 125 and every address is mapped, and that sequence has the requested length. Otherwise it is a server exception |
| Transport.WriteReply | src/modbus_device_async.rs:108-115 | a write reply is a transport error exactly when the link is down. It succeeds exactly when 1..123 words go to mapped holding addresses |
| Transport.WriteThenRead | src/modbus_device_async.rs:99-116 | after a successful write, reading the same range returns the written words. Every other holding word, the holding address set and the input space are unchanged |
| Types.ChunkWordsLe | src/types.rs:127-134 | pairing bytes into little-endian words succeeds exactly when the byte count is even. It gives half as many words, word k being byte 2k plus 256 times byte 2k+1 |
| Types.Decode | src/types.rs:64-104 | UInt16, Enum16 and Boolean always decode (from the first word). Every other tag decodes exactly when the words carry as many bytes as the tag's width |
| Types.EncodeBytes | src/types.rs:110-125 | the little-endian byte image of a value has exactly its tag's width |
| Types.Encode | src/types.rs:106-136 | encoding never fails and yields half as many words as the tag's width in bytes |
| Types.ChunksOfWire | src/types.rs:127-134 | chunking the reversed big-endian bytes of a word sequence gives that sequence reversed |
| Types.WireOfChunks | src/types.rs:66-71 | conversely, the reversed big-endian bytes of the reversed chunks of an even byte string are that byte string |
| Types.LeBytesFromLe | src/types.rs:74-77 | `from_le_bytes` after `to_le_bytes` is the identity on every value below 256^n |
| Types.FromLeLeBytes | src/types.rs:111-118 | `to_le_bytes` after `from_le_bytes` is the identity on every byte string |
| Types.WireValue | src/types.rs:66-77 | the little-endian number of the reversed big-endian bytes is the words read as one number, first word most significant |
| Types.DecodeTag | src/types.rs:72-100 | a successful decode yields the variant named by the tag |
| Types.DecodeErrorPayload | src/types.rs:74-98 | a failed decode returns the byte vector it could not convert: the reversed big-endian bytes of the words |
| Types.DecodeUnsigned | src/types.rs:74-98 | UInt32, UInt64, UInt128 and Float32 of the right width decode to the words read most significant first |
| Types.DecodeSigned | src/types.rs:86-89 | Int32 decodes to the two's-complement reading of that 32-bit number |
| Types.DecodeFirstWord | src/types.rs:73-90 | UInt16 and Enum16 decode to the first word and ignore the others |
| Types.DecodeBoolean | src/types.rs:99 | Boolean decodes to true exactly when the bitwise complement of the first word is zero, that is when the word is 0xFFFF |
| Types.DecodeSized | src/types.rs:91-94 | 33 words decode to the 66 reversed big-endian bytes |
| Types.WireOfEncode | src/types.rs:106-136 | the reversed big-endian bytes of the encoded words are the value's little-endian byte image |
| Types.EncodeWord | src/types.rs:111-116 | U16 and Enum16 encode to one word holding the value |
| Types.RoundTripWord | src/types.rs:64-136 | decoding an encoded U16 or Enum16 under its own tag gives the value back |
| Types.RoundTripUnsigned | src/types.rs:64-136 | the same for U32, U64, U128 and Float32 |
| Types.RoundTripSigned | src/types.rs:64-136 | the same for S32, through the two's-complement pattern |
| Types.RoundTrip | src/types.rs:64-136 | every value except a Boolean decodes back to itself after encoding |
| Types.EncodeBytesOfDecode | src/types.rs:64-136 | for every tag except Boolean, words of the tag's width decode, and the decoded value's byte image is the words' wire bytes |
| Types.EncodeAfterDecode | src/types.rs:64-136 | for every tag except Boolean, words of the tag's width decode and encode back to the same words (the other direction of the round trip) |
| Types.BooleanEncoding | src/types.rs:119-124 | true encodes as the word 1, false as the word 0 |
| Types.BooleanDoesNotRoundTrip | src/types.rs:99-124 | an encoded Boolean, true or false, decodes as false |
| Types.DecodeIntended | src/types.rs:99 | the Boolean decoding the encoder at src/types.rs:119-124 calls for: true exactly when the first word is not zero. Other tags decode as `Decode` (properties: Types.RoundTripIntended, Types.DecodeIntendedAgrees) |
| Types.RoundTripIntended | src/types.rs:64-136 | with the intended Boolean decoding, every value, Booleans included, decodes back to itself after encoding |
| Types.DecodeIntendedAgrees | src/types.rs:99 | the intended decoding agrees with `Decode` exactly except on a Boolean whose first word is neither 0 nor 0xFFFF |
| Types.DecodeExample | src/types.rs:74-77 | the words [0x0001, 0x0002] decode as UInt32 to 0x0001_0002 |
| Utils.ToRegister | src/utils.rs:35-41 | a record becomes a descriptor. The address is the record's id, the length is its bit count divided by 16 and rounded down, and the tag is kept. `read` is true unless the record says false |
| Utils.GetDefsFromJson | src/utils.rs:29-45 | a parse error is returned unchanged. Otherwise the result is the map after inserting every record under its name, in file order |
| Utils.CatalogOf | src/utils.rs:31-43 | the map the loop builds, record by record (specified by Utils.CatalogKeys, Utils.CatalogKeyIsName, Utils.CatalogLastWins) |
| Utils.CatalogKeys | src/utils.rs:32-43 | the catalog's keys are exactly the names of the records |
| Utils.CatalogKeyIsName | src/utils.rs:33-36 | every descriptor is stored under its own name |
| Utils.CatalogLastWins | src/utils.rs:32-43 | the descriptor under a name comes from the last record with that name |
| Utils.ShortRecord | src/utils.rs:38 | a record shorter than 16 bits gives a descriptor of zero words |
| Planner.SortByAddr | src/modbus_device_async.rs:162-163 | the sorted list is ordered by address and is a permutation of the input |
| Planner.Insert | src/modbus_device_async.rs:162-163 | one step of the sort: the result holds the input's registers plus `x`, one more than the input |
| Planner.SortSorted | src/modbus_device_async.rs:162-163 | a list already ordered by address is left unchanged |
| Planner.AtAddrMembers | src/modbus_device_async.rs:162-163 | the registers picked at an address are exactly the input's registers at that address |
| Planner.InsertAtAddr | src/modbus_device_async.rs:162-163 | inserting a register puts it first among the registers at its own address and leaves the order of every address's registers unchanged |
| Planner.SortStable | src/modbus_device_async.rs:162-163 | the sort is stable: at every address, the sorted list holds the input's registers at that address in their input order |
| Planner.SortKeepsMembers | src/modbus_device_async.rs:162-163 | a descriptor is in the sorted list exactly when it is in the input |
| Planner.Joins | src/modbus_device_async.rs:185-186 | the loop's test for a register to join the open window (its properties: Planner.WindowsContiguous, Planner.WindowsMaximal, Planner.WindowSpan) |
| Planner.Windows | src/modbus_device_async.rs:182-203 | the plan is empty exactly when there is no register. Otherwise the last window ends at the last register |
| Planner.WindowBounds | src/modbus_device_async.rs:182-203 | every window is non-empty and inside the list. The first window starts at the first register, and each window starts where the previous one ends |
| Planner.WindowsTile | src/modbus_device_async.rs:182-203 | the windows tile the sorted list, in order |
| Planner.WindowsCover | src/modbus_device_async.rs:182-203 | every register lies in exactly one window |
| Planner.WindowsContiguous | src/modbus_device_async.rs:184-186 | inside a window, every register joins its window: it is at most 125 words above the window's first address, and it starts where its predecessor ends |
| Planner.WindowsMaximal | src/modbus_device_async.rs:184-195 | a window is closed only at a register that does not join it |
| Planner.WindowsPrefix | src/modbus_device_async.rs:182-198 | the windows the loop has closed after a prefix are a prefix of the final plan: a closed window is never revised |
| Planner.WindowStartsAscend | src/modbus_device_async.rs:182-198 | window start addresses ascend, so the reads go out in address order |
| Planner.WindowsInExtent | src/modbus_device_async.rs:122-141 | every register of a window lies between the window's first address and its last register's end, so the offsets into the reply stay inside the buffer |
| Planner.WindowSpan | src/modbus_device_async.rs:185 | a window spans at most 125 words plus the length of its last register |
| Planner.WideWindow | src/modbus_device_async.rs:185-186 | registers a@0 (125 words) and b@125 (10 words) share one window that spans 135 words |
| Planner.GapExample | src/modbus_device_async.rs:186 | a gap in the addresses starts a new window |
| Planner.JoinsWithin | src/modbus_device_async.rs:28-29 | the test the comment on the read limit calls for: a register joins only if the window still fits in one read of 125 words (property: Planner.BoundedWindowSpan) |
| Planner.BoundedWindows | src/modbus_device_async.rs:182-203 | the plan made with the bounded test: empty exactly when there is no register, and otherwise its last window ends at the last register |
| Planner.BoundedWindowSpan | src/modbus_device_async.rs:28-29 | with the bounded test every window lies inside the list, and every window of two or more registers spans at most 125 words |
| Planner.WideWindowSplit | src/modbus_device_async.rs:28-29 | with the bounded test, the registers of Planner.WideWindow are read in two windows |
| Planner.SyncScan | src/modbus_device.rs:334-389 | the state of the sync loop after each index: its open window starts before that index (its meaning: Planner.SyncScanAgrees, Planner.SyncClosedPrefix) |
| Planner.SyncWindows | src/modbus_device.rs:334-391 | the windows the sync loop reads (specified by Planner.SyncDropsLast) |
| Planner.SyncScanAgrees | src/modbus_device.rs:334-389 | before the last register, the sync scan's closed windows plus its open window are the async plan of the same prefix |
| Planner.SyncDropsLast | src/modbus_device.rs:337-339 | the sync loop closes no window for fewer than two registers. Otherwise its windows are the async plan of all but the last register |
| Planner.SyncClosedPrefix | src/modbus_device.rs:334-389 | the windows the sync scan has closed so far are a prefix of its final windows |
| Batch.Collect | src/modbus_device_async.rs:136-153 | the map built from decoded entries (specified by Batch.CollectAppend, Batch.CollectKeys, Batch.CollectValue, Batch.CollectLast) |
| Batch.CollectAppend | src/modbus_device_async.rs:192 | collecting two entry lists one after the other is the `extend` of their maps: later entries win |
| Batch.CollectKeys | src/modbus_device_async.rs:136-153 | a name is a key of the collected map exactly when some entry of that name decoded |
| Batch.CollectValue | src/modbus_device_async.rs:136-153 | every collected value is the decoded value of an entry with that name |
| Batch.CollectLast | src/modbus_device_async.rs:136-153 | the last successfully decoded entry of a name gives its value |
| Batch.RawRead | src/modbus_device_async.rs:75-98 | a read without a context fails with DeviceNotConnectedError. A read succeeds exactly when connected, link up, 1..125 words and all mapped, and it then returns the stored words. A dead link gives a transport error |
| Batch.RangeRead | src/modbus_device_async.rs:117-154 | `read_range` as a run: one raw read over the extent, then each register decoded from its slice (specified by Batch.ReadRegistersSingle, Batch.WindowDecodesOwn) |
| Batch.WindowDecodesOwn | src/modbus_device_async.rs:136-153 | decoding each register from its offset in the window's reply gives the same entries as decoding the register's own words |
| Batch.RunAll | src/modbus_device_async.rs:188-203 | reads one after the other, merged, the first failure ending the batch (specified by Batch.RunAllSuccess, Batch.RunAllFailure) |
| Batch.RunAllSuccess | src/modbus_device_async.rs:188-203 | a batch succeeds exactly when every window read succeeds. It then sends every request and returns the merge of the window maps |
| Batch.RunAllFailure | src/modbus_device_async.rs:188-203 | the first failing window stops the batch: its error is returned and no later request is sent |
| Batch.RunWindows | src/modbus_device_async.rs:182-205 | a batch over a plan of windows (specified by Batch.RunWindowsSuccess, Batch.RunWindowsFailure, Batch.RunWindowsValues) |
| Batch.RunWindowsSuccess | src/modbus_device_async.rs:182-205 | a plan succeeds exactly when every window read succeeds. It then sends exactly one read per window, in plan order |
| Batch.RunWindowsFailure | src/modbus_device_async.rs:188-202 | a failing plan returns the error of its first failing window. It sends the reads up to and including that one, and no later read |
| Batch.RunWindowsDisconnected | src/modbus_device_async.rs:82-85 | without a context nothing is sent: an empty plan gives an empty map, any other plan gives DeviceNotConnectedError |
| Batch.RunWindowsValues | src/modbus_device_async.rs:182-205 | a successful plan returns every covered register's own decoded value, collected in address order |
| Batch.ReadRegistersRun | src/modbus_device_async.rs:156-206 | `read_registers`: sort, plan, run the plan (specified by the Batch.ReadRegisters* lemmas below) |
| Batch.ReadRegistersGuards | src/modbus_device_async.rs:171-174 | an empty request returns an empty map and sends nothing. A non-empty request without a context fails with DeviceNotConnectedError |
| Batch.ReadRegistersSingle | src/modbus_device_async.rs:176-180 | a single register is read as a range of exactly its own words |
| Batch.ReadRegistersRequests | src/modbus_device_async.rs:156-206 | a successful read sends one request per planned window, each for exactly that window's extent, in ascending address order |
| Batch.ReadRegistersCollect | src/modbus_device_async.rs:156-206 | a successful read returns the collection of every register's own decoded value, in address order |
| Batch.ReadRegistersCovered | src/modbus_device_async.rs:156-206 | after a successful read, every requested register's words were mapped |
| Batch.ReadRegistersKeys | src/modbus_device_async.rs:156-206 | after a successful read, a name is in the result exactly when some requested register of that name decodes |
| Batch.ReadRegistersValue | src/modbus_device_async.rs:156-206 | every value in a successful result is the decoding of a requested register of that name |
| Batch.WindowReadTooLong | src/modbus_device_async.rs:122-133 | a window whose extent is more than 125 words fails its raw read |
| Batch.PlanWithOverlongWindow | src/modbus_device_async.rs:188-203 | a plan holding a window of more than 125 words fails |
| Batch.OverlongWindowFails | src/modbus_device_async.rs:156-206 | if the planner makes a window of more than 125 words, the whole batch fails, whatever the remote holds and whether or not the device is connected |
| Batch.WideWindowFails | src/modbus_device_async.rs:185-186 | the batch of registers a@0 (125 words) and b@125 (10 words) fails on every remote and connection state: its one window asks for 135 words |
| Batch.SyncRun | src/modbus_device.rs:320-392 | the sync `read_register` (specified by Batch.SyncReadsNothing, Batch.SyncReadsAllButLast, Batch.SyncMissesLast) |
| Batch.SyncReadsNothing | src/modbus_device.rs:334-391 | the sync read of zero or one register sends nothing and returns an empty map |
| Batch.SyncReadsAllButLast | src/modbus_device.rs:334-391 | the sync read of two or more registers is the async read of all but the last register in address order |
| Batch.SyncMissesLast | src/modbus_device.rs:334-391 | a register whose address is above every other requested register's, and whose name is unique among them, is never in the sync result |
| Batch.SyncExample | src/modbus_device.rs:334-391 | registers a@0 and b@1 over words 7 and 9: the async read returns both, the sync read succeeds without b |
| Batch.AsyncExample | src/modbus_device_async.rs:156-206 | registers a@0 and b@1 over words 7 and 9: the async read returns a = 7 and b = 9 |
| Access.ReadOne | src/modbus_device_async.rs:207-217 | `read_register` as a run (specified by Access.ReadOneOutcome) |
| Access.ReadOneOutcome | src/modbus_device_async.rs:207-217 | a single read asks for exactly the register's extent. A read error is returned unchanged. On success the result is the register's decoded value, or ConversionError when it does not decode |
| Access.Resolve | src/modbus_device_async.rs:223-235 | the descriptors of the known names, in name order: never more than the names (its meaning: Access.Skipped, Access.ResolveMembers, Access.SkippedNames) |
| Access.Skipped | src/modbus_device_async.rs:223-235 | every requested name is either resolved to a descriptor or skipped |
| Access.ResolveMembers | src/modbus_device_async.rs:223-235 | a descriptor is read exactly when one of the requested names maps to it |
| Access.SkippedNames | src/modbus_device_async.rs:230-232 | the skipped names are exactly the requested names missing from the catalog |
| Access.ReadByName | src/modbus_device_async.rs:218-238 | `read_registers_by_name` as a run (specified by Access.ReadByNameKeys) |
| Access.ReadByNameKeys | src/modbus_device_async.rs:218-238 | a successful read by name returns a name exactly when a requested catalog entry of that name is mapped and decodes |
| Access.ReadFlagged | src/modbus_device_async.rs:248-255 | the dump keeps exactly the catalog entries whose `read` flag is set |
| Access.HashKeys | src/modbus_device.rs:404-405 | the key listing holds every catalog key exactly once, in an unspecified order |
| Access.FlaggedKeys | src/modbus_device.rs:455-463 | the flagged listing holds the keys whose `read` flag is set, in the catalog's iteration order |
| Access.Dump | src/modbus_device_async.rs:239-258 | `dump_registers` as a run (specified by Access.DumpKeys, Access.ReadFlagged) |
| Access.DumpKeys | src/modbus_device_async.rs:239-258 | a successful dump returns a name exactly when a flagged catalog entry of that name is mapped and decodes |
| Access.RawWriteRun | src/modbus_device_async.rs:99-116 | a raw write as a run, the device changing only on success (specified by Access.RawWrite, Transport.WriteThenRead) |
| Access.RawWrite | src/modbus_device_async.rs:99-116 | a write without a context fails with DeviceNotConnectedError. A write succeeds exactly when connected, link up, 1..123 words and all mapped. A dead link gives a transport error |
| Access.WriteHolding | src/modbus_device_async.rs:303-311 | `write_holding_register` as a run (specified by Access.WriteHoldingShape, Access.WriteThenReadBack) |
| Access.WriteHoldingShape | src/modbus_device_async.rs:303-311 | writing a value sends one request at the register's address carrying the encoded words, whose count is the tag's width over 2. A failed write leaves the device unchanged, and without a context nothing is sent |
| Access.WriteThenReadBack | src/modbus_device_async.rs:303-311 | after a successful write of a non-Boolean value whose tag and width are the register's, the register decodes to that value. Every word outside it and the input space are unchanged |
| Access.BooleanWriteReadsFalse | src/modbus_device_async.rs:303-311 | after successfully writing Boolean(true) to a Boolean register, the register decodes to false |
| Access.WriteByName | src/modbus_device_async.rs:312-323 | `write_holding_register_by_name` as a run (specified by Access.WriteByNameOutcome) |
| Access.WriteByNameOutcome | src/modbus_device_async.rs:312-323 | an unknown name fails with RegisterDoesNotExistError naming it, sends nothing and changes nothing. A known name writes at its catalog address |
| Industrial.ToIndustrial | src/industrial_device.rs:23-54 | the translation is defined for every variant except RegisterDoesNotExistError, which the match has no arm for (so the source match is not exhaustive and does not compile as written) |
| Industrial.ToIndustrialKinds | src/industrial_device.rs:23-54 | exceptions map to RequestError. A broken-pipe transport error maps to DeviceNotAccessibleError and any other client error to RequestError. I/O errors map to DeviceNotAccessibleError, slice and conversion errors to ConversionError, and not-connected to DeviceNotConnectedError |
| Industrial.ToIndustrialInjective | src/industrial_device.rs:23-54 | two errors with the same translation are equal, except for a broken-pipe I/O error and the same error inside the client's transport error |
| Industrial.BrokenPipeCollision | src/industrial_device.rs:29-40 | a direct broken-pipe I/O error and a client transport broken pipe translate alike |
| Industrial.ToValue | src/industrial_device.rs:56-70 | `From<RegisterValue> for Value` (specified by Industrial.ValueBijection) |
| Industrial.ValueBijection | src/industrial_device.rs:56-70 | the value conversion keeps variant and payload; the conversion back is its inverse |
| DeviceAsync.ModbusDeviceAsync.constructor | src/modbus_device_async.rs:40-51 | a new device has no context, an empty log, and the given catalogs and connection settings |
| DeviceAsync.ModbusDeviceAsync.Connect | src/modbus_device_async.rs:55-72 | a TCP connect error is returned as an I/O error and leaves the connection state unchanged. Otherwise the device is connected |
| DeviceAsync.ModbusDeviceAsync.IndustrialConnect | src/industrial_device.rs:13-16 | the industrial connect reports a TCP error as DeviceNotAccessibleError and otherwise connects |
| DeviceAsync.ModbusDeviceAsync.ReadRawRegisters | src/modbus_device_async.rs:75-98 | returns `Batch.RawRead` of the current remote and logs one read request when connected |
| DeviceAsync.ModbusDeviceAsync.WriteRawHoldingRegisters | src/modbus_device_async.rs:99-116 | returns the write outcome; the remote becomes the written remote, and the request is logged when connected |
| DeviceAsync.ModbusDeviceAsync.ReadRange | src/modbus_device_async.rs:117-154 | reads the window's extent in one request and returns each register's decoded value (`Batch.RangeRead`) |
| DeviceAsync.ModbusDeviceAsync.ReadRegisters | src/modbus_device_async.rs:156-206 | returns `Batch.ReadRegistersRun` and logs exactly its requests. The Batch.ReadRegisters* lemmas give that run's meaning |
| DeviceAsync.ModbusDeviceAsync.ReadSingle | src/modbus_device_async.rs:176-180 | the one-register branch gives the same result and requests as the general read |
| DeviceAsync.ModbusDeviceAsync.Advance | src/modbus_device_async.rs:182-198 | one loop iteration keeps the loop invariant, or stops with the plan's error and the requests sent so far |
| DeviceAsync.ModbusDeviceAsync.ReadWindows | src/modbus_device_async.rs:182-205 | the loop and the final read together perform `Batch.RunWindows` over `Planner.Windows` of the sorted list |
| DeviceAsync.ModbusDeviceAsync.FinishWindows | src/modbus_device_async.rs:199-205 | the final read completes the plan's run |
| DeviceAsync.ModbusDeviceAsync.ReadRegister | src/modbus_device_async.rs:207-217 | returns `Access.ReadOne` and logs its request |
| DeviceAsync.ModbusDeviceAsync.ReadRegistersByName | src/modbus_device_async.rs:218-238 | reads the catalog entries of the known names and skips the others (`Access.ReadByName`) |
| DeviceAsync.ModbusDeviceAsync.DumpRegisters | src/modbus_device_async.rs:239-258 | reads every flagged entry of the chosen catalog, in its iteration order (`Access.Dump`) |
| DeviceAsync.ModbusDeviceAsync.WriteHoldingRegister | src/modbus_device_async.rs:303-311 | writes the encoded value at the register's address (`Access.WriteHolding`) |
| DeviceAsync.ModbusDeviceAsync.WriteHoldingRegisterByName | src/modbus_device_async.rs:312-323 | writes by name, or fails with RegisterDoesNotExistError (`Access.WriteByName`) |
| DeviceAsync.ModbusDeviceAsync.GetHoldingRegisterByName | src/modbus_device_async.rs:325-327 | returns a copy of the descriptor exactly when the name is a holding key |
| DeviceAsync.ModbusDeviceAsync.GetInputRegisterByName | src/modbus_device_async.rs:328-330 | returns a copy of the descriptor exactly when the name is an input key |
| DeviceSync.Lookup | src/modbus_device.rs:449 | a map lookup finds a value exactly when the name is a key, and then it is that key's value |
| DeviceSync.SyncReadOne | src/modbus_device.rs:447-452 | `read_holding_register` of the sync device, ending in a value or a panic (specified by DeviceSync.SyncReadOnePanics) |
| DeviceSync.SyncReadOnePanics | src/modbus_device.rs:447-452 | reading one holding register sends nothing, finds no value and panics, for every readable register |
| DeviceSync.SyncByName | src/modbus_device.rs:303-318 | `read_*_registers_by_name` of the sync device: the known names resolved (Access.Skipped) and read by the sync loop (DeviceSync.SyncRunSound) |
| DeviceSync.SyncRunErrors | src/modbus_device.rs:32-38 | the sync read fails only with a server exception or a client error, both variants of the sync error type |
| DeviceSync.SyncRunSound | src/modbus_device.rs:320-392 | every value in a successful sync result is the decoding of a requested register of that name |
| DeviceSync.DumpInputAsksAll | src/modbus_device.rs:401-407 | the input dump asks for every catalog entry |
| DeviceSync.DumpHoldingAsksFlagged | src/modbus_device.rs:454-465 | the holding dump asks for exactly the entries whose `read` flag is set |
| DeviceSync.ModbusDevice.constructor | src/modbus_device.rs:21-25 | the device holds the given context and catalogs, with an empty log |
| DeviceSync.ModbusDevice.ReadRawInputRegisters | src/modbus_device.rs:287-301 | returns the input read outcome and logs the request, with no connection guard |
| DeviceSync.ModbusDevice.ReadRawHoldingRegisters | src/modbus_device.rs:409-423 | returns the holding read outcome and logs the request |
| DeviceSync.ModbusDevice.ReadRange | src/modbus_device.rs:341-380 | one window: one read of its extent and each register's decoded value |
| DeviceSync.ModbusDevice.SyncAdvance | src/modbus_device.rs:334-389 | one iteration of the sync loop keeps its invariant, or stops with the run's error and requests |
| DeviceSync.ModbusDevice.ReadRegister | src/modbus_device.rs:320-392 | returns `Batch.SyncRun` and logs exactly its requests |
| DeviceSync.ModbusDevice.SyncWindowsLoop | src/modbus_device.rs:334-391 | the loop performs `Batch.RunWindows` over the sync scan's windows |
| DeviceSync.ModbusDevice.ReadInputRegisters | src/modbus_device.rs:394-399 | the sync read of the input space |
| DeviceSync.ModbusDevice.ReadHoldingRegisters | src/modbus_device.rs:441-446 | the sync read of the holding space |
| DeviceSync.ModbusDevice.ReadInputRegistersByName | src/modbus_device.rs:303-318 | resolves the known input names, skips the others, and reads the resolved entries |
| DeviceSync.ModbusDevice.ReadHoldingRegistersByName | src/modbus_device.rs:425-440 | the same for the holding catalog |
| DeviceSync.ModbusDevice.DumpInputRegisters | src/modbus_device.rs:401-407 | reads every input key, in the catalog's iteration order |
| DeviceSync.ModbusDevice.DumpHoldingRegisters | src/modbus_device.rs:454-465 | reads every flagged holding key, in the catalog's iteration order |
| DeviceSync.ModbusDevice.ReadHoldingRegister | src/modbus_device.rs:447-452 | an error of the read is returned. Otherwise the value found under the register's name is returned, or the unwrap panics |
| DeviceSync.ModbusDevice.GetHoldingRegisterByName | src/modbus_device.rs:467-469 | returns the descriptor exactly when the name is a holding key |
| DeviceSync.ModbusDevice.WriteRawInputRegisters | src/modbus_device.rs:471-484 | writes the holding registers (a multiple-register write), with no connection guard |
| DeviceSync.ModbusDevice.WriteHoldingRegister | src/modbus_device.rs:486-492 | writes the encoded value at the register's address |

## Left out

- Network and serial I/O: a TCP connect error is a parameter of `Connect`. Opening the serial port, which unwraps and may panic, is not modelled. An RTU connect always succeeds in the model.
- `async`/`await`: each asynchronous method is a sequential method.
- Logging (`debug!`, `warn!`): a skipped name is not logged. The names skipped are given by `Access.Skipped`.
- The JSON parse in `get_defs_from_json`: serde is library code. Its outcome (records or a parse error) is the input of `Utils.GetDefsFromJson`.
- Float32 values: kept as their 32-bit pattern. The model does no floating-point arithmetic.
- `HashMap` iteration order: it is unspecified. A dump's order is a ghost listing of the keys, each exactly once (`Access.HashKeys`, `Access.FlaggedKeys`).
- `sort_by_key`: modelled as a stable insertion sort on a sequence (`Planner.SortByAddr`, stability proved by `Planner.SortStable`), not as the library's in-place sort.
- Overflow of the `u16` sum `addr + len` (a panic in debug builds, a wrap-around in release builds) and the panic on an empty slice: the `Readable`/`AllReadable` preconditions exclude them. A slice index out of the reply buffer is excluded by the window's extent (`Spanned`). These preconditions are discharged by the planner's own lemmas.
- The industrial `dump_registers` (src/industrial_device.rs:18-20) is `todo!()`, so it has nothing to model.
- The codec and `get_defs_from_json` duplicated in src/modbus_device.rs:167-279 are modelled once, by `Types` and `Utils`.
- DeviceSync.SyncRunErrors: the sync error type has four variants; the model uses the seven-variant type of errors.rs and proves that only the two sync variants arise.
- The per-space wrappers of the async device (src/modbus_device_async.rs:260-302) each call the generic method with a fixed space. The model calls the generic methods with that space.
- The `ModbusConnexionAsync` trait file is not part of this model; its methods are modelled as members of the class.
- The device replies with exactly the count it was asked for. A short reply would make the source index out of range; the model does not describe it.
- The loops of `read_registers` and `read_register` are split across helper methods (`Advance`, `ReadWindows`, `FinishWindows`, `ReadSingle`, `SyncAdvance`, `SyncWindowsLoop`), each with one iteration's or one phase's contract.
- Integration tests are not modelled.

The sync `write_raw_input_registers` writes holding registers, as its body does; the model follows the body. The Boolean decoding and the window test are modelled as written, and a corrected version of each is given beside them (see "## Findings").

## Findings

| source | as written | input that shows it | evidently intended | confidence | as-written member | corrected member |
|---|---|---|---|---|---|---|
| src/modbus_device.rs:334-391 | the sync loop also closes the open window when `i == regs.len() - 1`, reading only up to the register before `i`, and returns without a final read | registers a@0 and b@1 (UInt16, one word each) over input words 7 and 9: the result is {a: 7}, without b | every requested register is read, as the async `read_registers` does with its final read (src/modbus_device_async.rs:199-203) | not executed | Batch.SyncMissesLast | Batch.ReadRegistersKeys |
| src/modbus_device_async.rs:185 | the window test bounds the next register's START by 125 words past the window's first address, not its end | registers a@0 (125 words) and b@125 (10 words): one window of 135 words, which the device refuses (more than 125), so the whole batch fails; 126 one-word registers at 0..125 likewise make a 126-word read | a window never asks for more than 125 words, as the comment at src/modbus_device_async.rs:28 says | not executed | Batch.WideWindowFails | Planner.BoundedWindowSpan |
| src/types.rs:99 | a Boolean decodes as true only when its first word is 0xFFFF, while the encoder at src/types.rs:119-124 writes true as 1 | write Boolean(true) to a Boolean holding register and read it back: the read gives false | true encodes and decodes alike, so every value round-trips | not executed | Access.BooleanWriteReadsFalse | Types.RoundTripIntended |
| src/modbus_device.rs:447-452 | `read_holding_register` reads a one-element vector, which the sync loop never reads, then unwraps the lookup of the name | any readable register: the read sends nothing, returns an empty map, and `unwrap` panics | return the register's decoded value or an error, as the async `read_register` does (src/modbus_device_async.rs:207-217) | not executed | DeviceSync.SyncReadOnePanics | Access.ReadOneOutcome |
