# Verified models of the AST1060 driver kit

This project models the parts of the AST1060 driver kit (Rust) that decide something, and
proves what they promise. Each module stands beside one component:

| module | component |
|---|---|
| `Bits`, `Bytes`, `Scan` | word arithmetic, byte encodings, table scans shared by the rest |
| `Sha`, `Hace`, `Hmac` | the HACE hash engine: streaming digests and HMAC |
| `I3cTransfer`, `I3cFifo`, `I3cBatch`, `I3cFields`, `I3cDevices` | the I3C transfer engine, its FIFOs, whole batches of messages, register fields and device tables |
| `I2cBus`, `I2cMaster`, `I2cTiming` | I2C master transfers in byte, buffer and DMA mode, and the clock divider |
| `SpiMonitorAddr`, `SpiMonitorCmd`, `SpiMonitorCatalog` | the SPI monitor's privilege bitmaps and allow-command table |
| `NorFlash` | the NOR block device over page and sector commands |
| `SpiWindows`, `SpiCalibration` | flash address windows and read-timing calibration |
| `Rsa` | RSA padding, byte order and zero stripping around the modular-exponentiation engine |
| `Crc8` | the CRC-8 of in-band-interrupt payloads |

`dafny verify dfyconfig.toml` checks everything.

## How the hardware appears

Each driver is modelled with the piece of hardware it drives, kept as abstract as the
driver's promise allows: the hash engine folds an arbitrary compression function over the
bytes its scatter-gather list denotes; the I2C hardware turns commands into bus events, any
command may fail after any part of its events, and the target may send anything; the I3C
handler may come between any two steps of the thread and deliver any result; the NOR chip
erases to 0xFF, programs by AND inside a 256-byte page, needs its write-enable latch, ignores
commands while busy for an arbitrary time, does not decode address bits beyond its size and
reads on from its first byte behind its last; the RSA engine is any function whose
result is below the modulus; the calibration checksum is any function of clock mask and
delay setting. Objects whose methods change fields or buffers are classes, loops are loops,
and each is proved against a function or relation whose own properties are then proved.

## Main results

- **Hash.** However a message is cut into updates, `finalize` gives the last of the chaining
  values of the padded concatenation, truncated: one compression for each block, from the
  initial hash value on (`Hace.DigestOf`). The padding is that of FIPS 180-4 exactly while
  the bit length fits its field; a list length survives exactly below 2^31.
- **HMAC.** Init, one update and finalize give the HMAC of RFC 2104 with three exceptions. A key
  longer than a block but not than the 128-byte key buffer is truncated where the RFC hashes it
  (`Hmac.DriverKeyExact`); a message of more than 183 or 111 bytes (`Hmac.FitsExactly`) and a key
  to be hashed of more than 247 or 239 bytes (`Hmac.PaddedFits`) do not fit the buffer, and the
  driver panics. The driver's own key types for SHA-256, SHA-384 and SHA-512 have 32, 48 and 64
  bytes, so truncated and overlong keys take a caller's own algorithm type
  (`Hmac.OwnKeysAreRfc`).
- **I3C hand-over.** Under every interleaving a transfer is attached once and detached once
  before its operation returns, and the handler never follows a stale pointer
  (`I3cTransfer.HandOver`). It returns without a timeout exactly if the handler took the
  transfer between the reset of its flag and the last poll (`TimesOutExactly`). A completion
  between publishing a transfer and resetting its flag is lost (`EarlyCompletionTimesOut`), and
  a schedule that does it is given (`EarlyCompletionHappens`). What each operation returns is
  decided by what the handler delivered and when (`OutcomeExactly`, `CccSucceedsExactly`).
- **I3C responses.** In any order, a command that is answered once gets exactly its own bytes
  and the FIFO stays word-aligned (`I3cFifo.Demultiplexed`). From messages to buffers this
  holds for every batch of n messages if and only if n is at most 16, though 32 are accepted:
  TIDs have four bits (`I3cBatch.DeliveredExactly`). A device gets exactly the messages if and
  only if every write is shorter than 2^16 bytes (`I3cBatch.MessagesArrive`). Responses that
  come without a transfer in flight leave their data in front of the next transfer's
  (`I3cBatch.DroppedExactly`).
- **I3C results.** The result of a transfer reflects the statuses of a batch of answers if and
  only if all known TIDs lie below the number of responses and none is answered twice
  (`I3cBatch.ResultExact`). From messages to result, with the first messages answered in any
  order, that is again the case exactly up to 16 (`I3cBatch.ReflectedExactly`): in a longer
  batch the answer to message 16 hides an error on message 0 (`I3cBatch.ErrorHidden`).
- **I3C devices.** Table, index and address book stay consistent over attaches of attachable
  devices, detaches and reassignments; the exact condition is proved for each. Detaching by
  position leaves the address marked (`I3cDevices.I3cController.DetachI3cDev`).
- **I2C.** All three modes put the same trace on the bus; a write or a read returns `Invalid`
  only before its first command, so `write_read` may return it with the write on the bus. With
  the first four clocks the ratio is the least admissible one. The bus then keeps to its speed,
  in whole hertz, exactly unless the ratio is 33 (`I2cTiming.BusSpeed`); counted exactly, under
  a condition on the rest of the division (`I2cTiming.BusSpeedExact`). `RatioTooFast` and
  `RatioSlightlyFast` are inputs that run too fast. With the fallback clock shifted, the bus
  keeps to its speed exactly unless the ratio is clamped at 32, base / target is exactly 32
  shifted, and the division has a rest (`I2cTiming.FallBackSpeed`, with an input in
  `FallBackTooFast`).
- **SPI monitor.** After initialisation a block is allowed exactly if no valid blocked region
  touches it, for regions whose end fits 32 bits (`SpiMonitorAddr.PolicyHolds`); one that starts
  below 256 MiB and wraps is accepted and blocks at most one block, or makes the driver panic
  (`SpiMonitorAddr.WrappedBlocks`). The word-wide fast path is the bit-by-bit form. Over every
  run of init, add, remove and lock, a locked slot of the command table stays what it is
  exactly until an operation writes it without looking (`SpiMonitorCmd.LockedExactly`): adding
  a command to the slot reserved for it, or initialising from a list that fills it.
- **NOR.** Erase, program, read gives the data back; erase and program are exact under
  conditions that are proved necessary as well. Out of bounds, the 32-bit checks accept exactly
  the ends that lie at most the capacity beyond a positive multiple of 2^32
  (`NorFlash.BoundsExact`): for read and program 2^32 itself, for erase up to 4096 times that.
  Such an erase reaches the chip (`NorFlash.WrappedErase`); a count that underflowed to 2^32 - 1
  erases its first 16 MiB, or all of it (`NorFlash.CountUnderflow`).
- **Windows and calibration.** From any register state, repacking brings registers and record
  into agreement under a condition that is proved necessary as well; from packed windows it
  says that the flash size is whole granules, 0 only for a window that was off, and that no
  window follows a first one that is off. The chosen delay lies in a widest passing window of
  one row.
- **RSA, CRC.** Verify accepts what sign makes, and everything that RFC 8017 accepts. It accepts
  exactly the values congruent to the digest with enough significant bytes
  (`Rsa.AcceptsExact`), so for every signable digest, when the exponents invert each other, some
  signature that the standard rejects (`Rsa.SomeSignatureExceedsRfc`), and for the empty digest
  everything (`Rsa.AcceptsAllIff`). The CRC is the polynomial remainder.

## Where code and comments differ

The models follow the code.

- `spim_remove_allow_command` says it removes valid slots and that its error means "locked and
  invalid" (src/spimonitor/hardware.rs:701-723). The code clears every unlocked slot, valid or
  not, and the error is returned for a locked slot whose valid bit is set.
- `calculate_scl_low` says the low time must be the longer one (src/i2c_core/timing.rs:200-204).
  For the ratios 3, 5 and 7 it is the shorter one.
- `verify` says the signature follows PKCS#1 v1.5 (src/rsa.rs:394-417). Section 8.2.2 of
  RFC 8017 compares the whole encoded message; the code compares its tail with the digest, and
  checks neither the length nor the range of the signature. `Rsa.RfcAcceptsExact` says what is
  missing.
- `spim_add_allow_command` promises an error for a command that is present and locked
  (src/spimonitor/hardware.rs:656-659). The code enables it again in a reserved or an empty slot
  (`SpiMonitorCmd.AddOfLocked`), and `spim_allow_cmd_table_init` never looks at the lock.
- The timing sweep writes the chosen delay to spi084 (src/spi/spicontroller.rs:433-434), the
  register of the DMA flash address, which the next checksum overwrites. What
  `skip_calibration` looks at is spi094, which the driver never writes.
- `detach_i3c_dev` (src/i3c/controller.rs:182-185) does not give the address back, as
  `detach_i3c_dev_by_idx` does.
- The comment on the list of commands says 36 (src/spimonitor/hardware.rs:139); there are 34.
- `write_read` is documented as a combined transaction (src/i2c_core/master.rs:59). It is two, with
  a STOP in between.
- The fallback of `calculate_divider` compares the unshifted clock with the target after
  shifting, so once it has shifted its ratio is one above the rounded-up quotient, up to the
  clamp.

## Reading the contracts

- Driver arithmetic that could leave its machine word is written out where the code relies on
  it: 64-bit counters, register fields, and the 32-bit sums of the monitor's ranges, the NOR
  bounds checks and the window sizes, which wrap as in a build without overflow checks.
  Elsewhere sizes are assumed to fit 32 bits: updates are shorter than 2^31 bytes, data to
  program shorter than 2^32.
- `1 << code` in a 32-bit word is 2^code exactly for codes below 32 (`NorFlash.FromJedecId`);
  the NOR device is modelled for these.
- A function that a method and its contract share is characterised apart from both: `FoldOneMore`
  for the hash, `IsPad` for the pads, `DecodeWord` and `CommandLoFields` for I3C words,
  `AddWrites`, `KnownWords` and `FieldsWritten` for the command table, `WriteTraceIs` and
  `ReadTraceIs` for the bus, `SclLowIs` and `DefaultTiming` for the clock, `SettingsAre` for the
  calibration, `DerPrefixIs` for RSA. Command words are also given in full.
- `Or`, `And`, `Xor` and shifts on numbers are defined digit by digit in `Bits`; command words
  and table slots that are only masked are bit-vectors.
- Parameters named like the things outside a driver (`compress`, `target`, `fault`, `latency`,
  `delays`, `checksum`, `modExp`) are arbitrary functions, so every statement holds for all.

## Model

| member | source | states |
|---|---|---|
| `Sha.IvIsInitialHash` | src/hace_controller.rs:32-79 | the byte-swapped IV tables, read as little-endian memory, are the big-endian initial hash values of FIPS 180-4 section 5.3, word by word |
| `Sha.PaddingIsFips` | src/hace_controller.rs:430-483 | 0x80, the zeros and the length field are the padding of FIPS 180-4 sections 5.1.1 and 5.1.2, with the fewest zeros, if and only if the bit length fits the 64- or 128-bit field |
| `Sha.AbsorbShort` | src/hash_owned.rs:114-121 | data that does not complete a block leaves the chaining value alone and is held back in order |
| `Sha.AbsorbBlocks` | src/hash_owned.rs:124-158 | held bytes plus a block-completing prefix, folded into the chaining value, equal the fold over the whole message; the rest is what is held |
| `Sha.FoldAppend` | src/hash_owned.rs:146 | an accumulating engine may be stopped at any block boundary |
| `Sha.FoldOneMore` | src/hash_owned.rs:146 | one more block is one more compression of it into the chaining value; no block is none |
| `Sha.HashIsChain` | src/hash_owned.rs:73-203 | the one-shot hash is the last of the chaining values of FIPS 180-4 section 6 (the initial hash value, then one compression for each block of message and padding), cut to 32, 48 or 64 bytes |
| `Hace.CommandDecodes` | src/hace_controller.rs:275-318 | each command word names its algorithm and asks for scatter-gather, and clearing the scatter-gather bit changes only that |
| `Hace.CommandWords` | src/hace_controller.rs:275-318 | the three command words in full |
| `Hace.MarkLastDecodes` | src/hash_owned.rs:142-143 | a list length or-ed with the last-entry bit is read back exactly if and only if it is below 2^31 |
| `Hace.HaceController.Init` | src/hash_owned.rs:79-91 | starts an empty digest in the streaming state |
| `Hace.HaceController.CountBytes` | src/hash_owned.rs:100-109 | the two 64-bit counters, with carry, count bytes up to 2^128 |
| `Hace.HaceController.Update` | src/hash_owned.rs:99-161 | keeps the streaming invariant: digest is the fold of the whole blocks of everything fed, buffer is the rest, counters are its length |
| `Hace.HaceController.HashBlocks` | src/hash_owned.rs:123-160 | the scatter-gather path of an update keeps the same invariant |
| `Hace.HaceController.BuildList` | src/hash_owned.rs:124-144 | the two-entry list denotes the held bytes followed by the prefix of the data, of total_len bytes together |
| `Hace.GatherHeldAndData` | src/hash_owned.rs:129-144 | the list gathers in order and stops at the marked entry |
| `Hace.HaceController.StartHashOperation` | src/hace_controller.rs:354-379 | an engine run is given whole blocks whose list adds up to its length, and folds exactly them |
| `Hace.HaceController.FillPadding` | src/hace_controller.rs:430-483 | appends the padding of the counted length after the pending bytes, within the 256-byte buffer |
| `Hace.HaceController.PadLength` | src/hace_controller.rs:435-446 | the distance to the length field is one more than the number of zeros |
| `Hace.HaceController.WriteLengthField` | src/hace_controller.rs:451-482 | writes 8 times the 128-bit count, big-endian, truncated to 8 or 16 bytes |
| `Hace.WideLength` | src/hace_controller.rs:466-470 | the two shifted halves with the carry or-ed in are the 16-byte encoding of the bit count |
| `Hace.HaceController.Finalize` | src/hash_owned.rs:163-203 | the output words are the big-endian words of the truncated one-shot hash of everything fed; buffer, digest and counters are zeroed |
| `Hace.DigestOf` | src/hash_owned.rs:73-203 | for every way of cutting a message into updates the output is the last chaining value of the padded concatenation, truncated, as 8, 12 or 16 big-endian words; the padding is that of FIPS 180-4 while the length fits |
| `Hace.PaddedHash` | src/hash_owned.rs:168-181 | folding the held bytes and the padding completes the hash |
| `Hace.HaceController.Cancel` | src/hash_owned.rs:205-209 | wipes buffer, digest and counters |
| `Hace.HaceController.CleanupContext` | src/hace_controller.rs:137-149 | buffer, digest and counters are zero afterwards |
| `Hace.HaceController.HashKey` | src/hace_controller.rs:389-428 | key and both pads start with the one-shot hash of a long key |
| `Hmac.DriverKeyExact` | src/hmac.rs:153-162 | the block-sized key is the one of RFC 2104 section 2 for every key of a given length, unless that length is over a block but not over the 128-byte key buffer, where the driver truncates instead of hashing |
| `Hmac.OwnKeysAreRfc` | src/hmac.rs:74-90 | keys of the driver's own key types, as long as the digest, are never truncated: the key is the zero-padded one of RFC 2104 |
| `Hmac.FitsExactly` | src/hmac.rs:215-233 | the padded inner message fits the buffer exactly up to 183 bytes (64-byte blocks) or 111 bytes (128-byte blocks) |
| `Hmac.PaddedFits` | src/hace_controller.rs:389-428 | a string to hash in the buffer, such as a long key, fits with its padding exactly up to 247 bytes (64-byte blocks) or 239 bytes (128-byte blocks) |
| `Hmac.MacContext.constructor` | src/hmac.rs:139-172 | bit by bit, the first pad is K0 with the bits of 0x36 inverted in every byte and the second K0 with those of 0x5c, over the whole block |
| `Hmac.MacContext.Update` | src/hmac.rs:208-253 | leaves the hash of the second pad followed by the hash of the first pad followed by the message in the digest, and the pads as they were: the HMAC of RFC 2104 for all keys that are not truncated |
| `Hmac.MacContext.Finalize` | src/hmac.rs:255-267 | returns the digest bytes and zeroes buffer, digest and counters; key and pads stay in memory |
| `Hmac.HashBehindPad` | src/hmac.rs:215-233 | one inner or outer run hashes pad and message |
| `I3cTransfer.HandOver` | src/i3c/hardware.rs:1347-1394 | under every interleaving of thread and handler: the shared pointer is set only while its operation has not returned; every returned operation was attached once and detached once; no stale pointer is followed and no transfer displaces another |
| `I3cTransfer.SuccessWasDelivered` | src/i3c/hardware.rs:1634-1710 | success is reported only for a transfer the handler completed with result 0, or with an IBA NACK for a CCC |
| `I3cTransfer.CompletionSeen` | src/i3c/types.rs:324-378 | while the thread polls, the flag is up exactly when the handler took the transfer after the flag was reset |
| `I3cTransfer.EarlyCompletionTimesOut` | src/i3c/hardware.rs:1347-1356 | a completion between publishing the transfer and resetting its flag is lost: the operation waits out the timeout |
| `I3cTransfer.EarlyCompletionHappens` | src/i3c/hardware.rs:1347-1356 | a schedule on which a transfer completed with success reports a timeout |
| `I3cTransfer.TimesOutExactly` | src/i3c/hardware.rs:1347-1394 | on every schedule an operation returns without a timeout if and only if the handler took its transfer after the flag was reset and before the last poll |
| `I3cTransfer.SucceedsExactly` | src/i3c/hardware.rs:1634-1710 | a private transfer or an address assignment succeeds if and only if the handler took it in time and delivered result 0 |
| `I3cTransfer.OutcomeExactly` | src/i3c/hardware.rs:1634-1710 | on every schedule, what an operation returns: a success, and recorded as one, exactly if a good result was delivered in time (for a CCC, at any time at which it was not wiped again), else the error of its kind |
| `I3cTransfer.CccSucceedsExactly` | src/i3c/hardware.rs:1634-1661 | a CCC whose transfer was taken in time or late succeeds if and only if 0 or an IBA NACK was delivered; never taken it does not; taken early it does if moreover the result came after it had been set to -1 |
| `I3cTransfer.TookExactly` | src/i3c/hardware.rs:1347-1356 | how early the handler takes a transfer is decided by the step of start_xfer or of the wait that it comes before |
| `I3cTransfer.OperationReturns` | src/i3c/types.rs:367-377 | every operation returns within the timeout plus ten thread steps, whatever the handler does |
| `I3cTransfer.ReturnsInTime` | src/i3c/types.rs:367-377 | from its start an operation takes at most 1 000 000 010 thread steps |
| `I3cTransfer.RunKeepsInv` | src/i3c/hardware.rs:1347-1394 | every schedule keeps the pointer invariant and the attach, detach and return counts of every transfer |
| `I3cFields.FieldGetIs` | src/i3c/constants.rs:302-304 | reads the bits between the ends of the mask |
| `I3cFields.FieldPrepIs` | src/i3c/constants.rs:295-297 | writes the value truncated to the mask, for every value, also one whose shift leaves the word |
| `I3cFields.FieldRoundTrip` | src/i3c/constants.rs:288-304 | a value written to a field is read back if and only if it fits the field |
| `I3cFifo.UnpackOfPack` | src/i3c/hardware.rs:1115-1151 | bytes packed into FIFO words are read back unchanged, whatever follows in the FIFO |
| `I3cFifo.I3cHardware.WrTxFifo` | src/i3c/hardware.rs:1115-1133 | writes ceil(n/4) little-endian words, the last zero-filled |
| `I3cFifo.I3cHardware.RdRxFifo` | src/i3c/hardware.rs:1135-1151 | fills the slice from exactly ceil(n/4) words |
| `I3cFifo.I3cHardware.DrainFifo` | src/i3c/hardware.rs:1153-1161 | drops exactly ceil(n/4) words |
| `I3cFifo.DecodeWord` | src/i3c/hardware.rs:1405-1416 | a response word with a status, a TID, eight bits that are not looked at and a length is taken apart into just these |
| `I3cFifo.I3cHardware.LoadCommands` | src/i3c/hardware.rs:1358-1366 | puts the data of each command into the FIFO in order, each from a word boundary |
| `I3cFifo.TxAtBoundary` | src/i3c/hardware.rs:1358-1366 | the words of each message start at its own boundary in the FIFO, whatever follows |
| `I3cFifo.I3cHardware.EndXfer` | src/i3c/hardware.rs:1384-1465 | without a transfer in flight drops the responses and leaves their data in the FIFO; otherwise consumes exactly the words of all responses, failed and unknown ones included, delivers each to its command, and resets the queues on an error; panics exactly if an answer exceeds its buffer or there are more responses than commands |
| `I3cFifo.I3cHardware.TakeResponses` | src/i3c/hardware.rs:1402-1449 | the response loop delivers all responses, or stops exactly if one exceeds its buffer |
| `I3cFifo.I3cHardware.HandleResponse` | src/i3c/hardware.rs:1402-1449 | one response consumes its own words and changes only the command it names |
| `I3cFifo.Demultiplexed` | src/i3c/hardware.rs:1402-1449 | with responses in any order, a command answered once gets its own length and status and, on success, exactly its own bytes; the FIFO is left behind the last payload |
| `I3cBatch.DeliveredExactly` | src/i3c/hardware.rs:1402-1449 | for n messages, every batch built by the driver and answered in any order gives each well-answered read exactly the bytes sent for it, if and only if n is at most 16 |
| `I3cBatch.FewMessagesDelivered` | src/i3c/hardware.rs:1402-1449 | with at most 16 messages, whatever the order, errors and lengths of the answers, every read gets its own bytes |
| `I3cBatch.Misdelivered` | src/i3c/hardware.rs:1402-1449 | in every longer batch of reads, the answer to message 16 is written into the buffer of message 0 |
| `I3cFifo.PrivXferBuildCmds` | src/i3c/hardware.rs:1712-1782 | succeeds exactly when counts agree and every message has data of a 32-bit length; command i asks for a response and carries TID i mod 16, the device index, direction, length mod 2^16, its own buffer and the stop flag on the last one only |
| `I3cFifo.BuildCmd` | src/i3c/hardware.rs:1744-1778 | the words of one command decode to the fields meant |
| `I3cFifo.CommandLoFields` | src/i3c/hardware.rs:1744-1778 | the or-ed fields of the low word are read back as TID, device index, direction and stop flag |
| `I3cFifo.CommandHiField` | src/i3c/hardware.rs:1744-1778 | the length field of the high word is the length modulo 2^16 |
| `I3cFifo.CommandLoFlags` | src/i3c/hardware.rs:1744-1778 | the low word is a transfer command and asks for a response |
| `I3cFifo.CommandHiAttr` | src/i3c/hardware.rs:1744-1778 | the high word is a transfer argument |
| `I3cBatch.ErrorsReported` | src/i3c/hardware.rs:1402-1456 | whatever the order and the TIDs, the transfer fails exactly if the last answer to some command, with an index below the number of responses, is an error |
| `I3cBatch.ErrorMissed` | src/i3c/hardware.rs:1402-1456 | a single error on a known command is reported as success exactly if its TID is not below the number of responses or a later answer carries the same TID |
| `I3cBatch.ResultExact` | src/i3c/hardware.rs:1402-1456 | the result reflects the statuses of a batch of answers, whatever they are, if and only if every known TID is below the number of responses and none is answered twice |
| `I3cBatch.ReflectedExactly` | src/i3c/hardware.rs:1402-1456 | for n messages, in every batch built by the driver whose first messages are answered in any order the result reflects the statuses, if and only if n is at most 16 |
| `I3cBatch.EndBatch` | src/i3c/hardware.rs:1384-1465 | on the response words and payloads of a batch of at most 16 messages, answered in any order, the handler gives every read exactly the bytes sent for it; if the first messages were answered, its result is an error exactly if an answer was |
| `I3cBatch.ErrorHidden` | src/i3c/hardware.rs:1402-1456 | in every longer batch of reads answered in order, an error on message 0 is overwritten by the good answer to message 16 and the transfer succeeds |
| `I3cBatch.DroppedExactly` | src/i3c/hardware.rs:1389-1396 | after responses were dropped, the next transfer that reads anything gets its own bytes, whatever they are, if and only if no dropped response had data |
| `I3cBatch.MessagesArrive` | src/i3c/hardware.rs:1358-1379 | a device that takes, for each write in turn, the length its command tells it gets exactly the messages if and only if every write is shorter than 2^16 bytes |
| `I3cDevices.DetachKeepsLinked` | src/i3c/config.rs:233-256 | removing a device and shifting the index keeps positions and devices mutually inverse |
| `I3cDevices.DetachKeepsLookups` | src/i3c/config.rs:233-295 | detaching one device leaves every other device's position by address and by PID unchanged, and the detached one is found no more |
| `I3cDevices.DetachKeepsBook` | src/i3c/controller.rs:188-200 | the address book keeps marking exactly the attached addresses |
| `I3cDevices.LookupsAre` | src/i3c/config.rs:267-295 | looking a device up by address or PID finds its own position |
| `I3cDevices.AttachExact` | src/i3c/controller.rs:144-179 | an attach keeps table, index and address book consistent if and only if the slot is free, the address unused and the PID unknown |
| `I3cDevices.ReassignKeepsConsistent` | src/i3c/config.rs:469-496 | moving a device to a free address keeps everything consistent |
| `I3cDevices.AddrBook.MarkUse` | src/i3c/config.rs:106-111 | changes one mark, and never that of address 0 |
| `I3cDevices.AddrBook.AllocFrom` | src/i3c/config.rs:94-104 | the least free address of the pool from the start on, or none if there is none |
| `I3cDevices.AddrBook.PickInitialDa` | src/i3c/config.rs:456-466 | picks a free address, the desired before the static before one of the pool; it is marked used if and only if it is not from the pool |
| `I3cDevices.Attached.Attach` | src/i3c/config.rs:226-230 | appends a device, or fails when all eight places are taken |
| `I3cDevices.Attached.MapPos` | src/i3c/config.rs:298-304 | maps a position in range and nothing else |
| `I3cDevices.Attached.Detach` | src/i3c/config.rs:233-256 | removes the device, clears the position it remembers and moves every index entry behind it down by one |
| `I3cDevices.ClearingExact` | src/i3c/config.rs:233-256 | clearing the remembered position takes the device out of the index if and only if every entry for it is there and the entry there is its own |
| `I3cDevices.I3cController.AttachI3cDev` | src/i3c/controller.rs:144-179 | refuses address 0, the broadcast address and above, and a full table, changing nothing; otherwise the controller stays consistent exactly when the device was attachable |
| `I3cDevices.I3cController.DetachI3cDevByIdx` | src/i3c/controller.rs:188-200 | keeps the controller consistent and frees exactly the device's address |
| `I3cDevices.I3cController.DetachI3cDev` | src/i3c/controller.rs:182-185 | detaching by position removes the device but leaves its address marked: the controller stays consistent if and only if no device was there |
| `I3cDevices.I3cController.ReassignDa` | src/i3c/config.rs:469-496 | keeps the controller consistent except when it fails because no device has the old address: by then the new one is marked used |
| `I2cMaster.TxChunkExtends` | src/i2c_core/master.rs:211-272 | however a write is cut into chunks, START only on the first and STOP only on the last add up to one transaction |
| `I2cMaster.RxChunkExtends` | src/i2c_core/master.rs:290-349 | likewise for reads, with only the last byte not acknowledged |
| `I2cMaster.WriteTraceIs` | src/i2c_core/master.rs:34-44 | position by position: START with the address for writing, each byte, STOP |
| `I2cMaster.ReadTraceIs` | src/i2c_core/master.rs:47-57 | position by position: START with the address for reading, each byte acknowledged but the last, STOP |
| `I2cMaster.TxCommandIs` | src/i2c_core/master.rs:105-118 | a transmit command carries address and START on the first chunk, STOP on the last, and the mode bit |
| `I2cMaster.RxCommandIs` | src/i2c_core/master.rs:157-170 | a receive command carries address and START on the first chunk, NACK and STOP on the last, and the mode bit |
| `I2cMaster.CommandWords` | src/i2c_core/master.rs:105-170 | command words in full, for single bytes and for each mode |
| `I2cMaster.Ast1060I2c.CopyToBuffer` | src/i2c_core/transfer.rs:127-158 | the buffer registers hold the data byte for byte, or the call fails for more than 32 bytes |
| `I2cMaster.Ast1060I2c.CopyFromBuffer` | src/i2c_core/transfer.rs:161-188 | gives back the bytes in the buffer registers |
| `I2cMaster.Ast1060I2c.WriteByteMode` | src/i2c_core/master.rs:79-133 | one START with address, all bytes in order, one STOP; or a prefix of that and the bus error |
| `I2cMaster.Ast1060I2c.WriteBufferMode` | src/i2c_core/master.rs:199-275 | the same bus trace in 32-byte chunks, one command each; never fails as Invalid |
| `I2cMaster.Ast1060I2c.WriteDmaMode` | src/i2c_core/master.rs:431-511 | the same bus trace in 4096-byte chunks, one command each; Invalid exactly when the buffer cannot take the first chunk, and then no command was issued |
| `I2cMaster.Ast1060I2c.ReadByteMode` | src/i2c_core/master.rs:139-191 | one START with address, all bytes acknowledged but the last, one STOP; the caller gets the bytes in order |
| `I2cMaster.Ast1060I2c.ReadBufferMode` | src/i2c_core/master.rs:278-349 | the same bus trace and bytes in 32-byte chunks, one command each |
| `I2cMaster.Ast1060I2c.ReadDmaMode` | src/i2c_core/master.rs:514-597 | the same bus trace and bytes in 4096-byte chunks, one command each; Invalid only before any command |
| `I2cMaster.Ast1060I2c.Write` | src/i2c_core/master.rs:34-44 | whatever the mode, the bus sees the same write; Invalid exactly if it was rejected up front, with nothing on the bus; on a fault-free bus it succeeds otherwise |
| `I2cMaster.Ast1060I2c.Read` | src/i2c_core/master.rs:47-57 | whatever the mode, the bus sees the same read and the caller gets what the target sent; Invalid exactly if it was rejected up front, with nothing on the bus |
| `I2cMaster.Ast1060I2c.WriteRead` | src/i2c_core/master.rs:60-73 | a write, and then a read with its own START and STOP exactly if the write succeeded; after a failed write, wherever it failed, nothing is read and the buffer is as it was; Invalid exactly if the write is rejected, or the read is when the write is already on the bus |
| `I2cTiming.CalculateDivider` | src/i2c_core/timing.rs:136-198 | takes the first usable of four clocks with the least ratio that does not exceed the target speed, at most 33; fails exactly for target 0 or when no clock is left |
| `I2cTiming.FallBack` | src/i2c_core/timing.rs:168-198 | the shift loop stops at the least shift whose rounded-up ratio is at most 32, and the ratio then grows by one up to the clamp |
| `I2cTiming.CeilShrIs` | src/i2c_core/timing.rs:177-183 | halving with rounding up k times is division by 2^k rounded up |
| `I2cTiming.ShiftBound` | src/i2c_core/timing.rs:173-195 | the divider code fits four bits if and only if the first ratio is at most 2^16 |
| `I2cTiming.FallBackFits` | src/i2c_core/timing.rs:173-195 | for 32-bit clocks and targets from 2^16 Hz up, masking the divider code changes nothing |
| `I2cTiming.FallBackSpeed` | src/i2c_core/timing.rs:168-223 | with the fallback clock shifted, the bus keeps to the target exactly unless the ratio is clamped at 32 and the division has a rest; counted in whole hertz, a rest of at least 32 shifted |
| `I2cTiming.FallBackSpeedUnshifted` | src/i2c_core/timing.rs:168-223 | with the fallback clock unshifted, the bus keeps to the target under the conditions of the other clocks, in whole hertz and exactly |
| `I2cTiming.FallBackTooFast` | src/i2c_core/timing.rs:168-198 | a fallback clock of 6 499 999 Hz gives ratio 32 at shift 1 for a target of 100 kHz, and so 101 562 Hz |
| `I2cTiming.RoundUpIsLeast` | src/i2c_core/timing.rs:154-164 | rounding base / target up when it is exceeded gives the least ratio that keeps to the target |
| `I2cTiming.RatioIs` | src/i2c_core/timing.rs:154-164 | the chosen ratio is the quotient, or one more exactly if the rest is at least the quotient |
| `I2cTiming.PeriodIsRatio` | src/i2c_core/timing.rs:200-223 | low time, high time and two edges add up to the ratio if and only if it is between 2 and 32 |
| `I2cTiming.SclLowIs` | src/i2c_core/timing.rs:200-211 | the low time is the most that is not over 9/16 of the ratio, within 1 and 16 cycles |
| `I2cTiming.LowIsLonger` | src/i2c_core/timing.rs:200-223 | the low time is at least the high time except for the ratios 3, 5 and 7 |
| `I2cTiming.BusSpeed` | src/i2c_core/timing.rs:150-223 | in whole hertz, with one of the first four clocks the bus keeps to the target speed if and only if base / 32 does, that is unless the ratio is 33 |
| `I2cTiming.BusSpeedExact` | src/i2c_core/timing.rs:150-223 | counted exactly, the bus keeps to the target if and only if the division base / target leaves no rest, or one of at least the quotient while the quotient is below 32 |
| `I2cTiming.RatioTooFast` | src/i2c_core/timing.rs:150-223 | a clock of 3 299 999 Hz gives ratio 33 and period 32 for a target of 100 kHz, and so 103 124 Hz |
| `I2cTiming.RatioSlightlyFast` | src/i2c_core/timing.rs:150-223 | a clock of 3 200 031 Hz gives ratio 32: on target in whole hertz, but faster than 100 kHz |
| `I2cTiming.ConfigureTiming` | src/i2c_core/timing.rs:74-121 | for the three speeds every register field fits its width and describes the first usable clock and its least ratio, or the fallback |
| `I2cTiming.DefaultTiming` | src/i2c_core/timing.rs:38-43 | with the documented clocks the three speeds get 28, 25 and 20 cycles of the third, second and first derived clock, and the register fields for them |
| `SpiMonitorAddr.TouchedBlocks` | src/spimonitor/hardware.rs:814-827 | a 16 KiB block is touched exactly if it lies between the first and the end block |
| `SpiMonitorAddr.GetAdjustedAddrLen` | src/spimonitor/hardware.rs:814-827 | the smallest aligned range of blocks that covers a range, if its end fits 32 bits |
| `SpiMonitorAddr.WrappedBlocks` | src/spimonitor/hardware.rs:814-860 | a range whose end wraps 32 bits counts as at most one block, or as more than the table has, with the exact condition for each |
| `SpiMonitorAddr.GuardExact` | src/spimonitor/hardware.rs:845-850 | the 32-bit range check is the intended one if and only if the sum does not wrap |
| `SpiMonitorAddr.ConfiguredUnique` | src/spimonitor/hardware.rs:864-901 | the blocks decide the registers |
| `SpiMonitorAddr.FastPathIsBitByBit` | src/spimonitor/hardware.rs:870-882 | the 32-block fast path gives the table that setting one bit after the other gives |
| `SpiMonitorAddr.PrivTables.AddressPrivilegeConfig` | src/spimonitor/hardware.rs:838-903 | changes exactly the blocks counted for the range, in the selected table only, and returns their number; rejects bad addresses, bad lengths and locked tables without changing anything; panics exactly if a wrapped range counts more blocks than there are |
| `SpiMonitorAddr.PrivTables.ConfigBlocks` | src/spimonitor/hardware.rs:864-901 | the register loop sets exactly its blocks, and panics behind the last register |
| `SpiMonitorAddr.PrivTables.RwPermInit` | src/spimonitor/hardware.rs:976-1008 | afterwards a block is allowed in an unlocked table if and only if it is counted for no region; a locked table is as it was; panics exactly if a region overruns an unlocked table |
| `SpiMonitorAddr.PolicyHolds` | src/spimonitor/hardware.rs:976-1008 | for regions whose end fits 32 bits, a block is then allowed if and only if it touches no valid blocked region |
| `SpiMonitorAddr.WrapBlocksLittle` | src/spimonitor/hardware.rs:845-860 | a region whose end wraps, if it does not panic, is accepted and blocks at most the block it starts in |
| `SpiMonitorAddr.PermTableExtends` | src/spimonitor/hardware.rs:992-1007 | one more region, valid or not, takes exactly its blocks out |
| `SpiMonitorCatalog.FreshValue` | src/spimonitor/hardware.rs:105-127 | a command value names its command and is neither locked nor valid |
| `SpiMonitorCatalog.KnownWords` | src/spimonitor/hardware.rs:138-311 | the 34 register words in full |
| `SpiMonitorCatalog.FieldsWritten` | src/spimonitor/hardware.rs:105-127 | each of the nine fields and the command are read back from their own bits of the word written |
| `SpiMonitorCatalog.Ast1060Catalog` | src/spimonitor/hardware.rs:138-311 | the monitor's list of 34 commands is a catalog, so everything proved of the table applies to it |
| `SpiMonitorCmd.EnabledValue` | src/spimonitor/hardware.rs:630-637 | the value written for a known command equals its register value on every bit outside the valid bits, and has exactly the valid bit the flag asks for; it is unlocked and not empty |
| `SpiMonitorCmd.LockedSlotsKept` | src/spimonitor/hardware.rs:531-782 | an operation changes a locked slot if and only if it adds the command the slot is reserved for while no unlocked slot holds it, or initialises from a list that fills the slot |
| `SpiMonitorCmd.InitLocked` | src/spimonitor/hardware.rs:560-589 | initialising changes a locked slot if and only if the list puts a known command there |
| `SpiMonitorCmd.LockedExactly` | src/spimonitor/hardware.rs:531-782 | over every run of init, add, remove and lock, a locked slot stays what it is exactly until an operation writes it without looking |
| `SpiMonitorCmd.LockedForGood` | src/spimonitor/hardware.rs:531-782 | a locked slot never changes over a run that adds no command the slot is reserved for and initialises from no list that fills it |
| `SpiMonitorCmd.AddEnables` | src/spimonitor/hardware.rs:659-699 | a successful add leaves the command enabled and unlocked in the slot it names and changes no other; a failed one changes nothing |
| `SpiMonitorCmd.AddWrites` | src/spimonitor/hardware.rs:624-699 | which slot an add writes, and every bit of it: the first unlocked slot of the command keeps all but the valid bit; else slot 0, 1 or 31 if reserved, else the first empty one from 2 on, gets the register value with exactly one valid bit; else nothing changes |
| `SpiMonitorCmd.InitWrites` | src/spimonitor/hardware.rs:560-589 | after an init, a slot the list puts a command into has its register value and exactly one valid bit; the others are as they were |
| `SpiMonitorCmd.AddOfLocked` | src/spimonitor/hardware.rs:656-699 | adding a command that is only in locked slots succeeds if and only if it is known and has a reserved slot or an empty one is left |
| `SpiMonitorCmd.RemoveClears` | src/spimonitor/hardware.rs:704-735 | a successful remove clears exactly the unlocked slots of the command and counts them; none is left, except that cleared slots look like command 0 |
| `SpiMonitorCmd.LockLocksAll` | src/spimonitor/hardware.rs:742-782 | locks every slot of the command and counts the newly locked; a second lock finds nothing and fails |
| `SpiMonitorCmd.LockAllLocksAll` | src/spimonitor/hardware.rs:751-758 | locking everything locks all 32 slots |
| `SpiMonitorCmd.RemoveUndoesAdd` | src/spimonitor/hardware.rs:659-735 | adding a command that was not there and removing it restores the table |
| `SpiMonitorCmd.AllowTable.GetAllowCmdSlot` | src/spimonitor/hardware.rs:604-621 | the first slot of the command from an offset on, or the right error |
| `SpiMonitorCmd.AllowTable.GetEmptyAllowCmdSlot` | src/spimonitor/hardware.rs:592-602 | the first empty slot from 2 on |
| `SpiMonitorCmd.AllowTable.WriteFixedLoc` | src/spimonitor/hardware.rs:531-557 | writes the reserved slot of a command that has one, and nothing otherwise |
| `SpiMonitorCmd.AllowTable.AddAllowCommand` | src/spimonitor/hardware.rs:659-699 | the scan-and-resume loop enables the first unlocked slot of the command, else a reserved or empty slot |
| `SpiMonitorCmd.AllowTable.RemoveAllowCommand` | src/spimonitor/hardware.rs:704-735 | clears unlocked slots in order and stops with an error at the first locked valid one |
| `SpiMonitorCmd.AllowTable.LockAllowCommandTable` | src/spimonitor/hardware.rs:742-782 | the loop locks each unlocked slot of the command once |
| `SpiMonitorCmd.AllowTable.AllowCmdTableInit` | src/spimonitor/hardware.rs:560-589 | commands of the list fill their reserved slots or the slots from 2 to 30 in order; unknown ones are skipped and the overflow is dropped |
| `NorFlash.EraseExactIff` | src/spi/norflashblockdevice.rs:123-139 | for sector-aligned requests erase blanks exactly the sectors asked for, whatever they held, if and only if there are none or all have three-byte addresses |
| `NorFlash.ProgramExactIff` | src/spi/norflashblockdevice.rs:146-184 | program changes exactly its range, for every memory and all data, if and only if the range is empty or starts on a page |
| `NorFlash.EraseProgramRead` | src/spi/norflashblockdevice.rs:98-184 | after erasing sectors and programming a page-aligned range in them, reading it gives the data, the rest of the sectors is blank, everything else is unchanged |
| `NorFlash.AddressBytes` | src/spi/spicontroller.rs:543-549 | three-byte commands send the address modulo 2^24, four-byte ones the address |
| `NorFlash.PageWraps` | src/spi/norflash.rs:232-268 | byte i of a page program goes to the i-th place from the address on, around the end of the page |
| `NorFlash.FromJedecId` | src/spi/norflashblockdevice.rs:49-71 | exactly ids of two makers with codes 0x10 to 0x28 are known, each other gives its error; four-byte addresses exactly above 16 MiB; the capacity is 2^code if and only if the code is below 32, and then a whole number of sectors |
| `NorFlash.BoundsExact` | src/spi/norflashblockdevice.rs:98-155 | an end that is computed in 32 bits passes the bounds check although it is out of bounds if and only if it lies at most the capacity beyond a positive multiple of 2^32 |
| `NorFlash.RangeBounds` | src/spi/norflashblockdevice.rs:98-155 | for read and program that multiple is 2^32 itself |
| `NorFlash.EraseBounds` | src/spi/norflashblockdevice.rs:123-130 | for erase, whose product wraps too, it is any multiple up to 4096 times 2^32 |
| `NorFlash.WrappedErase` | src/spi/norflashblockdevice.rs:123-139 | erasing one sector at 0xFFFF_F000 is accepted for every capacity and erases the last sector of the chip, or of its first 16 MiB |
| `NorFlash.EraseAll` | src/spi/norflashblockdevice.rs:123-139 | erasing 4096 sectors or more, from any sector on, erases exactly the first 16 MiB of the chip, or all of it |
| `NorFlash.CountUnderflow` | src/spi/norflashblockdevice.rs:123-139 | a count of 2^32 - 1 sectors from address 4096 on has the 32-bit end 0, so that every device accepts it and erases its first 16 MiB |
| `NorFlash.SectorMask` | src/spi/norflash.rs:369-374 | the mask test is sector alignment |
| `NorFlash.SpiNorDevice.SectorErase` | src/spi/norflash.rs:208-230 | erases the sector and waits, or refuses a misaligned address leaving memory unchanged and the write-enable latch set |
| `NorFlash.SpiNorDevice.PageProgram` | src/spi/norflash.rs:232-268 | enables writing and programs one page |
| `NorFlash.SpiNorDevice.WaitUntilReady` | src/spi/norflash.rs:376-400 | the polling loop ends with the chip idle |
| `NorFlash.NorFlashBlockDevice.Read` | src/spi/norflashblockdevice.rs:98-117 | OutOfBounds exactly if the 32-bit end exceeds the capacity; otherwise the bytes from the address on, which is the range itself unless its end wraps |
| `NorFlash.NorFlashBlockDevice.Erase` | src/spi/norflashblockdevice.rs:123-139 | OutOfBounds exactly if the 32-bit end exceeds the capacity, EraseError exactly for a misaligned start; otherwise erases sector after sector with the addresses that reach the chip; errors leave the memory untouched |
| `NorFlash.NorFlashBlockDevice.Program` | src/spi/norflashblockdevice.rs:146-184 | OutOfBounds exactly if the 32-bit end exceeds the capacity, ProgramError exactly for a partial page; otherwise programs page-sized chunks, waiting after each; errors leave the memory untouched |
| `SpiWindows.ComposeDecodes` | src/spi/spicontroller.rs:151-163 | encoding a granule-aligned window and decoding the register gives the window back |
| `SpiWindows.SpiSegments` | src/spi/spicontroller.rs:151-158 | the SPI register decodes to 1 MiB granules |
| `SpiWindows.FmcSegments` | src/spi/fmccontroller.rs:146-153 | the FMC register decodes to 512 KiB granules |
| `SpiWindows.SpiCompose` | src/spi/spicontroller.rs:161-163 | the SPI register holds the granule numbers of start and end |
| `SpiWindows.FmcCompose` | src/spi/fmccontroller.rs:156-158 | the FMC register holds the granule numbers of start and end |
| `SpiWindows.DecodedWhole` | src/spi/spicontroller.rs:151-188 | a register can only describe whole granules |
| `SpiWindows.FlashWindows.PackedDisjoint` | src/spi/spicontroller.rs:200-236 | packed windows, switched-off ones included, do not overlap and cover a contiguous range from the base |
| `SpiWindows.FlashWindows.DecodeRangePreInit` | src/spi/spicontroller.rs:105-148 | leaves windows of the unit size packed from the base, registers and record in agreement |
| `SpiWindows.FlashWindows.UnitSizeIs` | src/spi/spicontroller.rs:105-125 | the first size is 2 MiB, 256 MiB behind a mux, or an equal share of 256 MiB |
| `SpiWindows.FlashWindows.ReadSizes` | src/spi/spicontroller.rs:171-194 | reads back the size of every window, 0 for a register that is 0, and their total, in 32-bit words |
| `SpiWindows.FlashWindows.DecodeRangeReinit` | src/spi/spicontroller.rs:165-236 | from any register state: a request whose 32-bit total does not fit changes nothing; any other places every enabled window, and they are packed if and only if the sizes were packable and fit 256 MiB without wrapping |
| `SpiWindows.FlashWindows.PackedIsPackable` | src/spi/spicontroller.rs:165-236 | from packed windows that means: the flash size is whole granules, 0 only for a window that was off, and no enabled window follows a first one that is off |
| `SpiWindows.FlashWindows.ApplySizes` | src/spi/spicontroller.rs:203-236 | lays the enabled windows out one after the other and leaves the others alone; they are packed exactly if they fit, their sizes are whole and recorded, those of size 0 were off, and none follows a first one that is off (it is placed at address 0) |
| `SpiCalibration.GetMidPointOfLongestOne` | src/spi/util.rs:122-147 | the result is the middle of the first longest run of ones, or -1 if none has four |
| `SpiCalibration.RunInRow` | src/spi/spicontroller.rs:410-429 | a run never crosses rows, because column 16 stays zero |
| `SpiCalibration.PickBestDelay` | src/spi/spicontroller.rs:446-455 | the point lies in a widest passing window of at least four delays of one row; None exactly if there is no such window |
| `SpiCalibration.Sweep.RunTimingSweep` | src/spi/spicontroller.rs:388-443 | picks the first divisor not above the configured frequency that has a window of four passing delays, and a passing point in the middle of a widest window; fails exactly if no divisor has one. The delay is written to spi084, where every checksum puts its flash address |
| `SpiCalibration.Sweep.TimingCalibration` | src/spi/spicontroller.rs:321-375 | sweeps exactly if not disabled, for one of the two chip selects, not marked in its register (spi094, spi098), not for the second one behind a mux, and the flash data varies; with the checksum read without mask and delay as reference it takes the first divisor that has a window, else the configured frequency; the marks are never written, so a calibrated chip select is swept again |
| `SpiCalibration.Sweep.SkipCalibration` | src/spi/spicontroller.rs:344-375 | skips exactly in those cases; skipping sets the configured frequency except for an unknown chip select |
| `SpiCalibration.Sweep.Measure` | src/spi/spicontroller.rs:410-429 | the matrix holds exactly the results of the checksum tests |
| `SpiCalibration.Sweep.StillConsidered` | src/spi/spicontroller.rs:393-399 | comparing with the last frequency tried instead of the configured one changes nothing |
| `SpiCalibration.TestedIsWritten` | src/spi/spicontroller.rs:415-434 | the delay value written to spi084 is the one that was tested if and only if it is the last divisor and five cycles, since the mask is or-ed into the tested value only |
| `SpiCalibration.SettingsAre` | src/spi/spicontroller.rs:388-434 | the two delay values in full |
| `SpiCalibration.FirstDivisorIgnoresCycles` | src/spi/spicontroller.rs:389-415 | with the first divisor all cycle counts are the same test |
| `Rsa.Pkcs1V15PadInplace` | src/rsa.rs:172-223 | writes the encoded message of RFC 8017 section 9.2 (00 01 PS 00 T, at least eight bytes of PS) for the three digest sizes; fails exactly for other sizes or too small an output |
| `Rsa.DerPrefixIs` | src/rsa.rs:172-200 | the prefix is the DER header of a DigestInfo with the object identifier of SHA-256, SHA-384 or SHA-512, NULL and the digest length |
| `Rsa.RightAligned` | src/rsa.rs:376-386 | right-aligning stripped bytes behind zeros gives the fixed-length big-endian encoding |
| `Rsa.EngineOutputIs` | src/rsa.rs:277-292 | stripping leading zeros keeps the number and never leaves more bytes than the modulus has |
| `Rsa.AspeedRsa.LoadOperands` | src/rsa.rs:239-254 | after the reversed byte copies the engine's operands are the big-endian numbers of the caller |
| `Rsa.AspeedRsa.ReadResult` | src/rsa.rs:277-292 | the output is the result from its high end without leading zeros |
| `Rsa.AspeedRsa.Trigger` | src/rsa.rs:225-298 | returns the stripped result of the modular exponentiation and wipes the memory; HardwareError exactly when the engine is not done within 10000 polls |
| `Rsa.AspeedRsa.WaitReady` | src/rsa.rs:265-275 | the retry loop gives up after exactly 10000 polls |
| `Rsa.AspeedRsa.Sign` | src/rsa.rs:348-392 | the signature is exactly the modulus-length big-endian encoding of the engine's number, however many leading zeros were stripped |
| `Rsa.AspeedRsa.Verify` | src/rsa.rs:418-452 | accepts exactly if the stripped engine result ends in the digest; `AcceptsExact` says which numbers those are |
| `Rsa.VerifyAcceptsSigned` | src/rsa.rs:348-452 | verify accepts every signature sign makes when the exponents invert each other |
| `Rsa.AcceptsExact` | src/rsa.rs:418-452 | verify accepts exactly the engine values congruent to the digest modulo 256^n that have at least n significant bytes, for a digest of n bytes |
| `Rsa.AcceptsAllIff` | src/rsa.rs:418-452 | verify accepts every signature, whatever the engine computes, if and only if the digest is empty |
| `Rsa.RfcAcceptsExact` | src/rsa.rs:418-452 | the check of RFC 8017 section 8.2.2 is that of verify and, beyond it, the length and the range of the signature and everything in front of the digest |
| `Rsa.RfcImpliesAccepts` | src/rsa.rs:418-452 | what RFC 8017 accepts, verify accepts |
| `Rsa.OtherValueAccepted` | src/rsa.rs:418-452 | for every digest that can be signed and every full modulus, the byte 1 in front of the digest is a value below the modulus that verify accepts and that is not the encoded message |
| `Rsa.VerifyExceedsRfc` | src/rsa.rs:418-452 | a signature that opens to that value is accepted by verify and not by RFC 8017 |
| `Rsa.SomeSignatureExceedsRfc` | src/rsa.rs:418-452 | when the exponents invert each other, for every digest that can be signed some signature of the length of the modulus is accepted by verify and not by RFC 8017 |
| `Rsa.EncodedBelowModulus` | src/rsa.rs:172-223 | the encoded message is below a modulus of full bit length |
| `Rsa.KeyLengths` | src/rsa.rs:356-357 | a key's slices have the fewest bytes that hold its bits, and its numbers are those of these slices |
| `Crc8.CrcIsRemainder` | src/i3c/hal_impl.rs:226-239 | for data of any length the CRC from 0 is the remainder of data(x) x^8 modulo x^8 + x^2 + x + 1 |
| `Crc8.RemainderUnique` | src/i3c/hal_impl.rs:226-239 | there is only one such remainder |
| `Crc8.CrcPiecewise` | src/i3c/hal_impl.rs:198-200 | computing the CRC in two pieces equals computing it over the concatenation |
| `Crc8.PayloadCheck` | src/i3c/hal_impl.rs:198-202 | the check byte of the payload is the remainder for the address byte and the data byte, and nothing else is |
| `Crc8.Crc8Ccitt` | src/i3c/hal_impl.rs:226-239 | the nested loop computes that CRC |

## Left out

- Hace.HaceController.Update: updates of 2^31 bytes and more, whose list length is damaged (`Hace.MarkLastDecodes` gives the exact bound), and the count beyond 2^128 bytes.
- Hace.HaceController.HashKey: keys whose padded form exceeds the 256-byte buffer (`Hmac.PaddedFits`), for which the driver panics.
- Hmac.MacContext.Update: messages that do not fit the buffer (`Hmac.FitsExactly`), for which the driver panics, and an accumulated MAC over several updates, because the driver starts over with each call; the contract describes each call.
- I3cTransfer.HandOver: several threads, and schedules in which the handler itself is interrupted; the handler runs to completion on the single core.
- I3cTransfer.OperationReturns: real time; the timeout is counted in polling steps.
- I3cFifo.I3cHardware.EndXfer: what a read from an empty RX FIFO gives, and halting and resuming the controller around the queue reset.
- I3cFifo.PrivXferBuildCmds: the caller's array of 32 commands, which bounds the number of messages.
- I3cDevices.I3cController.AttachI3cDev: the register write that follows, which always succeeds.
- I2cMaster.Ast1060I2c.Write: how a fault is read from the status register; faults are an arbitrary answer per command, and interrupt clearing and polling are folded into it.
- I2cMaster.Ast1060I2c.Read: what a failing command leaves in the caller's buffer.
- I2cTiming.CalculateDivider: the timeout fields of the timing register, which are constants.
- SpiMonitorAddr.PrivTables.AddressPrivilegeConfig: builds with overflow checks, in which a range whose end wraps panics at once.
- SpiMonitorCmd.AllowTable.AddAllowCommand: hardware that ignores writes to locked slots; the table keeps what it is given.
- NorFlash.NorFlashBlockDevice.Erase: bus errors, which the transfer macro drops, and builds with overflow checks, in which an end that wraps panics.
- NorFlash.NorFlashBlockDevice.constructor: ids with capacity codes from 32 on.
- SpiWindows.FlashWindows.DecodeRangePreInit: the branch that disables a window beyond 256 MiB, which no configuration with at most two chip selects reaches; more than two chip selects, which have no registers.
- SpiCalibration.Sweep.RunTimingSweep: the DMA transactions behind a checksum, and the frequency code written for the chosen clock.
- Rsa.AspeedRsa.Trigger: the key-length register, which the engine is assumed to agree with; keys with modulus 0 or with more bytes than the engine's areas hold.
- SHA-1, SHA-224, SHA-512/224 and SHA-512/256: the same code paths with other tables.
- src/hash.rs: the older borrowed digest, whose update keeps its buffer count when nothing remains.
- src/i2c/ast1060_i2c.rs, src/i2c_core/slave.rs, src/i2c_core/target_adapter.rs: the older driver and the target side.
- In-band interrupts and target mode of I3C: a library queue and one-branch decoding.
- `num_xfer` and `actual_len` of private messages, which copy lengths the command already holds.
- Pin control, GPIO, UART, timers, watchdog, ECDSA, system control, logging and delays: register plumbing.
- The strength of SHA-2, HMAC and RSA: compression and exponentiation are arbitrary functions.
