# one-wire-bus in Dafny

A model of the bus master of the `one-wire-bus` crate: a driver for the Dallas/Maxim
1-Wire bus, where one data line with a pull-up resistor connects a master to any number
of devices. Each device has a unique 64-bit ROM address. The model covers:

- the timing primitives: reset with presence detection, read slots, and write slots for 1 and 0;
- byte framing, least-significant bit first;
- ROM addressing: MATCH_ROM with an address, SKIP_ROM, and `send_command`;
- the resumable ROM search (`device_search`);
- the iterator that drives the search (`DeviceSearch::next`);
- the Dallas/Maxim CRC-8 (`crc8`, `check_crc8`) that checks every discovered address.

The files are:

- `errors.dfy` (module `Errors`): the error kinds, `Result` and `Option`.
- `commands.dfy` (module `Commands`): the ROM command bytes.
- `crc.dfy` (module `Crc`):
  - `crc8` as a left fold of eight-step byte updates;
  - the imperative nested loops proved equal to it;
  - `check_crc8`, the self-check law and the three known vectors.
- `address.dfy` (module `Addresses`):
  - `Address`, single-bit masks, and the little-endian byte split;
  - the order in which the search finds addresses. This order is "lowest to highest, little endian": the lowest bit is the most significant. It is the numeric order of the bit-reversed values, not of the `u64` values.
- `wire.dfy` (module `Wire`):
  - Every operation of the driver is a function from a `Line` to its result and the line after it.
  - A `Line` is the state of the far end of the wire plus the events so far: drive low, release, wait µs, sample.
  - The far end is a `Responder`: how it reacts to each event and which level it shows.
  - Lemmas state what event sequence each operation produces, and what a listening device takes from it.
- `search.dfy` (module `Search`):
  - `device_search` in its three phases (replay, switch, discovery) and the CRC gate;
  - the iterator's `next` as functions of the line;
  - what every pass returns on any wire: resumable loop variables, and an address strictly later in search order than the previous one;
  - the fact that the iterator yields addresses in strictly ascending search order, and an error at most once.
- `onewire.dfy` (module `OneWireBus`): the classes `OneWire` and `DeviceSearch`.
  - They run every operation imperatively, with the loops of the source.
  - Each method is proved to leave the line exactly as the matching function says.
- `devices.dfy` (module `Population`): a population of devices as a `Responder`. It behaves as the 1-Wire standard describes:
  - a long pulse is a reset, which present devices answer with a presence pulse;
  - a pulse shorter than 15 µs reads as a 1;
  - during a search, the selected devices answer the two read slots of each bit by wired-AND, then drop out when the written bit differs from theirs.
  This module is not part of the crate. It is the reference that the search is checked against.
- `searchbus.dfy` (module `SearchOnBus`): on that wire, a pass of `device_search` computes a function of sets of addresses (`SearchAmong`), and `n` calls of `next` compute `RunAmong`.
- `enumeration.dfy` (module `Enumeration`): on a wire with a fixed population, the results of a pass.
  - Each pass returns the least selected address after the previous one.
  - The discrepancies a pass records are exactly the forks of the address tree to the right of its path.
  - The iterator yields every selected device exactly once, in ascending search order, and then ends. This holds when the selected addresses pass the CRC check.

Where the description of the crate and its code differ, the model follows the code:

- Addresses come out in LSB-first order (`Addresses.LsbLess`), not in ascending numeric order.
- A search for alarming devices when devices are present but none is alarming does not end quietly. No device answers at bit 0, so the pass fails with `UnexpectedResponse`, and the iterator yields that error (`Enumeration.NoAlarmingDeviceOnBus`).

## Model

| member | source | states |
|---|---|---|
| Crc.Step | src/crc.rs:9-14 | one inner step shifts the data byte right, and the register's new top bit is set exactly when the low bits of data and register differ |
| Crc.ComputeCrc8 | src/crc.rs:4-18 | the nested loops over bytes and bits compute `Crc8`, the left fold of eight-step byte updates from a zero register |
| Crc.CheckCrc8 | src/crc.rs:24-30 | Ok exactly when the CRC of the data is 0, otherwise `CrcMismatch` |
| Crc.Crc8Empty | src/crc.rs:5-17 | the CRC of no data is the initial register 0 |
| Crc.CrcFromAppend | src/crc.rs:6-16 | the fold over a concatenation continues the fold over the first part |
| Crc.Crc8Append | src/crc.rs:6-16 | `crc8(a ++ b)` is the fold over `b` started from `crc8(a)` |
| Crc.CrcByteSelf | src/crc.rs:8-15 | feeding the register its own value clears it |
| Crc.Crc8SelfCheck | src/crc.rs:20-30 | data followed by its CRC has CRC 0 and passes `check_crc8`, for all data |
| Crc.KnownVector1 | src/crc.rs:38-39 | the CRC of the first test vector is 21, and 0 with 21 appended |
| Crc.KnownVector2 | src/crc.rs:41-42 | the CRC of the second test vector is 2, and 0 with 2 appended |
| Crc.KnownVector3 | src/crc.rs:44-45 | the CRC of the third test vector is 155, and 0 with 155 appended |
| Addresses.BitOfSet | src/lib.rs:304-305 | or-ing in the mask of bit `i` makes that bit 1 and changes no other bit |
| Addresses.BitOfClear | src/lib.rs:346 | and-ing with the inverted mask of bit `i` makes that bit 0 and changes no other bit |
| Addresses.BitOfSetBit | src/lib.rs:342-347 | assigning the chosen bit at `i` gives bit `i` that value and keeps the others |
| Addresses.LeBytesRoundTrip | src/lib.rs:196 | the little-endian byte split of a `u64` loses nothing |
| Addresses.FromLeBytesRoundTrip | src/lib.rs:196 | every eight bytes are the split of exactly one value |
| Addresses.FamilyCode | src/address.rs:9-11 | the family code is the low byte of the address |
| Addresses.LsbLessIrreflexive | src/lib.rs:229 | no address comes before itself in search order |
| Addresses.LsbLessTransitive | src/lib.rs:229 | search order is transitive |
| Addresses.LsbLessTotal | src/lib.rs:252 | any two distinct addresses are ordered one way or the other |
| Addresses.LessAtFirstDifference | src/lib.rs:252 | an address comes first when, at the first bit where they differ, it has the 0 |
| Addresses.FirstDifference | src/lib.rs:252 | conversely, an earlier address has a 0 at the first differing bit, where the later one has a 1 |
| Wire.PollEvents | src/lib.rs:75-84 | the polling loop either fails every poll (2 µs apart) or finds the line high after fewer failed polls than allowed |
| Wire.ResetEvents | src/lib.rs:87-100 | reset fails only with `BusNotHigh` after 125 failed polls and never drives low then; otherwise it drives low for 480 µs, releases, samples after 70 µs, waits 410 µs, and reports presence exactly when the sample was low |
| Wire.ReadSlotShape | src/lib.rs:102-112 | a read slot is one pull and one release, samples 15 µs after the pull, and lasts `READ_SLOT_DURATION_MICROS` |
| Wire.ReadBitEvents | src/lib.rs:102-112 | `read_bit` appends one read slot and returns the level it sampled |
| Wire.ReadSlotLevels | src/lib.rs:109 | a read slot samples exactly once |
| Wire.WriteSlotShape | src/lib.rs:135-151 | a write slot for either value is one pull and one release and lasts `READ_SLOT_DURATION_MICROS` |
| Wire.WriteBitEvents | src/lib.rs:153-163 | `write_bit` appends the write slot of its value |
| Wire.ReceivedWriteSlots | src/lib.rs:135-151 | a listening device takes exactly the written bits from a run of write slots |
| Wire.LevelsOfReadSlots | src/lib.rs:102-112 | the master samples exactly the levels of its read slots |
| Wire.ReadBitsEvents | src/lib.rs:114-123 | the loop of `read_byte` is that many read slots, whose levels are shifted into the accumulator in order |
| Wire.ReadByteEvents | src/lib.rs:114-123 | `read_byte` is eight read slots, and the level of slot `k` is bit `k` of the byte returned |
| Wire.WriteBitsEvents | src/lib.rs:165-175 | the loop of `write_byte` sends the low bits of the value, lowest first |
| Wire.WriteByteEvents | src/lib.rs:165-175 | `write_byte` is eight write slots carrying bit `k` of the value in slot `k` |
| Wire.ByteOfBitsOf | src/lib.rs:114-123 | assembling the bits of a byte, lowest first, gives the byte back |
| Wire.BitsOfByteOf | src/lib.rs:114-123 | the bits of an assembled byte are the levels it was built from |
| Wire.LoopbackRoundTrip | src/lib.rs:114-175 | when `read_byte` samples the bits a device took from `write_byte(v)`, it returns `v` |
| Wire.ReadBytesEvents | src/lib.rs:124-133 | `read_bytes` reads its bytes in index order, each lowest bit first |
| Wire.WriteBytesEvents | src/lib.rs:177-186 | `write_bytes` writes its bytes in index order, each lowest bit first |
| Wire.AddressBitsAt | src/lib.rs:196 | slot `j` of the address bytes carries bit `j` of the address |
| Wire.MatchAddressEvents | src/lib.rs:190-198 | `match_address` writes MATCH_ROM, then the little-endian address bytes |
| Wire.SkipAddressEvents | src/lib.rs:202-205 | `skip_address` writes SKIP_ROM alone |
| Wire.SendCommandFails | src/lib.rs:215 | `send_command` fails exactly with its reset's error, and sends nothing after it |
| Wire.SendCommandEvents | src/lib.rs:209-223 | after a successful reset, even one no device answered, `send_command` writes the selection and then the command, and a listening device receives exactly those bits |
| OneWireBus.OneWire.constructor | src/lib.rs:40-45 | `new` releases the bus |
| OneWireBus.OneWire.ReleaseBus | src/lib.rs:51-56 | appends a release |
| OneWireBus.OneWire.SetBusLow | src/lib.rs:58-63 | appends a drive-low |
| OneWireBus.OneWire.IsBusHigh | src/lib.rs:65-69 | samples the level the far end shows |
| OneWireBus.OneWire.IsBusLow | src/lib.rs:71-73 | the negation of a sample |
| OneWireBus.OneWire.WaitForHigh | src/lib.rs:75-84 | the polling loop is `Wire.WaitForHigh` |
| OneWireBus.OneWire.Reset | src/lib.rs:87-100 | is `Wire.Reset` |
| OneWireBus.OneWire.ReadBit | src/lib.rs:102-112 | is `Wire.ReadBit` |
| OneWireBus.OneWire.Write1Bit | src/lib.rs:135-142 | is `Wire.Write1Bit` |
| OneWireBus.OneWire.Write0Bit | src/lib.rs:144-151 | is `Wire.Write0Bit` |
| OneWireBus.OneWire.WriteBit | src/lib.rs:153-163 | is `Wire.WriteBit` |
| OneWireBus.OneWire.ReadByte | src/lib.rs:114-123 | the shifting loop is `Wire.ReadByte` |
| OneWireBus.OneWire.ReadBytes | src/lib.rs:124-133 | fills the output array in place with `Wire.ReadBytes` of its length |
| OneWireBus.OneWire.WriteByte | src/lib.rs:165-175 | the shifting loop is `Wire.WriteByte` |
| OneWireBus.OneWire.WriteBytes | src/lib.rs:177-186 | is `Wire.WriteBytes` |
| OneWireBus.OneWire.MatchAddress | src/lib.rs:190-198 | is `Wire.MatchAddress` |
| OneWireBus.OneWire.SkipAddress | src/lib.rs:202-205 | is `Wire.SkipAddress` |
| OneWireBus.OneWire.SendCommand | src/lib.rs:209-223 | is `Wire.SendCommand` |
| OneWireBus.OneWire.ReplayBitStep | src/lib.rs:282-293 | one turn of the replay loop is `Search.ReplayBit` |
| OneWireBus.OneWire.ReplayPath | src/lib.rs:281-294 | the replay loop is `Search.Replay` from bit 0 |
| OneWireBus.OneWire.SwitchStep | src/lib.rs:297-307 | the switch is `Search.Switch` |
| OneWireBus.OneWire.DiscoverBitStep | src/lib.rs:319-348 | one turn of the discovery loop is `Search.DiscoverBit` |
| OneWireBus.OneWire.DiscoverPath | src/lib.rs:318-349 | the discovery loop is `Search.Discover` |
| OneWireBus.OneWire.ResumeSearch | src/lib.rs:279-312 | replay and switch are `Search.Resume` |
| OneWireBus.OneWire.WalkTree | src/lib.rs:274-358 | everything after the search command is `Search.Walk` |
| OneWireBus.OneWire.DeviceSearch | src/lib.rs:253-359 | `device_search` is `Search.Pass` |
| OneWireBus.OneWire.Devices | src/lib.rs:230-245 | a fresh iterator over this bus with no state, not finished |
| OneWireBus.DeviceSearch.constructor | src/lib.rs:238-244 | starts with no state and not finished |
| OneWireBus.DeviceSearch.Next | src/lib.rs:378-401 | `next` is `Search.Next` for the item, the fields and the line |
| Search.Choose | src/lib.rs:321-341 | the per-bit decision fails exactly when neither branch answers, with `UnexpectedResponse`; otherwise it chooses 1 exactly when no device has a 0 |
| Search.ChooseAddress | src/lib.rs:342-347 | the chosen bit is written at `i` and nowhere else |
| Search.ChooseDiscrepancies | src/lib.rs:334-339 | bit `i` becomes a discrepancy, and the last one, exactly when both branches answered |
| Search.DiscoverBitFacts | src/lib.rs:319-348 | one turn of discovery fails exactly when neither read slot was low, with `UnexpectedResponse`, and otherwise updates the loop variables as `Choose` does |
| Search.DiscoverFacts | src/lib.rs:318-349 | discovery from bit `i` keeps the bits below `i`, takes the 0 branch at every new discrepancy, and ends with the index naming the highest one |
| Search.ReplayLast | src/lib.rs:281-294 | the replay loop ends with `LastBelow`, the index of the highest discrepancy it passed |
| Search.LastBelowFacts | src/lib.rs:284-288 | that index is the highest discrepancy below the previous last one, or the start value when there is none |
| Search.ReplayFacts | src/lib.rs:281-294 | the replay loop ends with the highest discrepancy below the previous last one |
| Search.RestartResumed | src/lib.rs:295-312 | the resumed variables take the 1 branch at the previous last discrepancy, drop that discrepancy, and index the highest one left |
| Search.ResumeFacts | src/lib.rs:279-312 | the switch fails exactly when one branch is missing, with `UnexpectedResponse`; otherwise discovery resumes from `Restart` |
| Search.Gate | src/lib.rs:350-358 | a discovered address is returned exactly when its little-endian bytes pass the CRC check, otherwise `CrcMismatch`; errors pass through |
| Search.FirstPassResult | src/lib.rs:313-349 | the first pass ends with well-formed variables that took 0 at every discrepancy |
| Search.ResumedWellFormed | src/lib.rs:284-288 | a resumed pass ends with the index naming the highest discrepancy, or with no discrepancy |
| Search.ResumedZeroAtForks | src/lib.rs:334-339 | a resumed pass ends with the 0 branch taken at every discrepancy |
| Search.ResumedAdvanced | src/lib.rs:295-311 | a resumed pass keeps the bits below the previous last discrepancy `d`, has 1 at `d` where the previous address had 0, and has dropped `d` from the discrepancies |
| Search.AdvancedIsLater | src/lib.rs:252 | hence the new address comes strictly after the previous one in search order |
| Search.ResumedResult | src/lib.rs:279-349 | discovery after the switch ends resumable and strictly later in search order |
| Search.WalkFirst | src/lib.rs:313-358 | the first pass fails only with `UnexpectedResponse` or `CrcMismatch`, and otherwise returns a resumable state whose address passes the CRC check |
| Search.WalkResumed | src/lib.rs:279-358 | a resumed pass does the same, and its address comes strictly after the previous one |
| Search.PassExhausted | src/lib.rs:259-263 | with no discrepancy left, the search ends without touching the line |
| Search.PassReset | src/lib.rs:265-267 | a failed reset is returned as is; a reset no device answered ends the search |
| Search.PassCommand | src/lib.rs:268-272 | after a presence pulse the pass writes SEARCH_ALARM exactly when only alarming devices are wanted, and SEARCH_NORMAL otherwise |
| Search.PassFacts | src/lib.rs:253-359 | `device_search` from a resumable state or none returns only reset, answer or CRC errors, or the end of the search, or a resumable address that passes the CRC check and is later than the previous one |
| Search.FreshValid | src/lib.rs:238-244 | a new iterator has no state and is not finished |
| Search.NextFinished | src/lib.rs:379-381 | a finished iterator yields nothing, keeps its fields, and leaves the line alone |
| Search.NextFacts | src/lib.rs:378-401 | `next` stores the state and yields the address on success; it finishes on the end of the search; it yields an error and finishes on a failure |
| Search.NextFinishes | src/lib.rs:390-399 | a call that yields no address leaves the iterator finished |
| Search.NextStepped | src/lib.rs:378-401 | `next` keeps its fields valid, and each address it yields comes after the one it held |
| Search.RunStops | src/lib.rs:395-399 | after nothing or an error, every later call yields nothing, so an error is yielded at most once |
| Search.RunAscending | src/lib.rs:225-229 | the iterator yields addresses in strictly ascending search order, so none twice |
| Population.ResetOnBus | src/lib.rs:87-100 | on a device wire, reset reports presence exactly when some device is present |
| Population.ReadFirst | src/lib.rs:319 | the first read slot of a search bit is low exactly when a selected device has a 0 there |
| Population.ReadSecond | src/lib.rs:320 | the second read slot is low exactly when a selected device has a 1 there |
| Population.WriteDirection | src/lib.rs:348 | the written bit deselects the devices whose bit differs |
| Population.SearchCommandOnBus | src/lib.rs:268-272 | the search command selects every device, or the alarming ones |
| SearchOnBus.DescendDiscovered | src/lib.rs:318-349 | discovery on sets of addresses keeps the promises of `Search.DiscoverFacts` |
| SearchOnBus.DiscoverBitOnBus | src/lib.rs:319-348 | on the device wire, one turn of discovery is `Choose` on what the selected devices answer |
| SearchOnBus.DiscoverOnBus | src/lib.rs:318-349 | on the device wire, the discovery loop computes `Descend` of the selected devices |
| SearchOnBus.ReplayBitOnBus | src/lib.rs:282-293 | one replay turn deselects the devices off the previous path |
| SearchOnBus.ReplayOnBus | src/lib.rs:281-294 | the replay loop leaves selected the devices on the previous path below the last discrepancy |
| SearchOnBus.SwitchOnBus | src/lib.rs:297-307 | the switch goes on exactly when both branches are still present, and then selects the 1 branch |
| SearchOnBus.ResumeOnBus | src/lib.rs:279-312 | replay and switch fail exactly when a branch is missing at the last discrepancy, and otherwise resume from `Restart` |
| SearchOnBus.WalkFirstOnBus | src/lib.rs:313-358 | the first pass on the device wire computes `Searched` |
| SearchOnBus.WalkResumedOnBus | src/lib.rs:279-358 | a resumed pass on the device wire computes `Searched` |
| SearchOnBus.WalkOnBus | src/lib.rs:274-358 | everything after the search command computes `Searched` and leaves the population as it was |
| SearchOnBus.PassOnBus | src/lib.rs:253-359 | `device_search` on the device wire computes `SearchAmong` of the present and alarming devices |
| SearchOnBus.NextOnBus | src/lib.rs:378-401 | `next` on the device wire computes `NextAmong` |
| SearchOnBus.RunOnBus | src/lib.rs:378-401 | `n` calls of `next` on the device wire compute `RunAmong` |
| Enumeration.DescendFacts | src/lib.rs:318-349 | discovery on a nonempty selection finds its least address, and records a discrepancy exactly at the forks to the right of its path |
| Enumeration.FirstSearched | src/lib.rs:313-358 | the first pass finds the least selected address and marks its position in the tree |
| Enumeration.Exhausted | src/lib.rs:259-263 | the discrepancies are zero exactly when no selected address comes after the last one found |
| Enumeration.SwitchAnswers | src/lib.rs:297-303 | on a stable population both branches answer the switch |
| Enumeration.ResumedSearched | src/lib.rs:279-358 | a resumed pass finds the least selected address after the previous one and marks its position |
| Enumeration.SearchAmongYields | src/lib.rs:253-359 | `device_search` returns the least address still to be found, or the end of the search when there is none |
| Enumeration.NoAlarmingDevice | src/lib.rs:321-325 | a search for alarming devices when none is alarming fails with `UnexpectedResponse` |
| Enumeration.RunEnumerates | src/lib.rs:378-401 | from a cursor marking the last address found, `next` lists the remaining addresses once each, in order, then ends |
| Enumeration.EveryDeviceOnce | src/lib.rs:225-229 | the iterator of `devices` yields every selected device exactly once, in ascending search order, then ends |
| Enumeration.NoAlarmingDeviceOnBus | src/lib.rs:321-325 | otherwise, for alarming devices, its first item is `UnexpectedResponse` |

## Left out

- Pin failures: the line never fails, so `PinError` is never raised and its propagation through `?` is not modelled.
- Delays are `Wait` events in the trace. No real time passes, and electrical tolerance and jitter are not modelled.
- `into_inner`, the `Debug` formatting of `Address` and `SearchState`, and the `no_std` configuration are not modelled.
- OneWireBus.OneWire.constructor: returns the object rather than a `Result`, since releasing the bus cannot fail in this model.
- The crate's `commands` module is not part of this model. MATCH_ROM, SKIP_ROM, SEARCH_NORMAL and SEARCH_ALARM take the standard 1-Wire values 0x55, 0xCC, 0xF0 and 0xEC.
- `FamilyCodeMismatch` and `Timeout` are declared but, as in the source, never raised.
- `last_discrepancy_index` is a bit index below 64, because every value the source stores in it comes from a loop index below 64.
- The device population is fixed. Devices added, removed or changing alarm state between passes are not modelled. Devices ignore every command other than the two searches.
- The device model reads a write slot at 15 µs after the falling edge and holds the line for fixed times. It is not an electrical model.
- Enumeration.EveryDeviceOnce: assumes every selected address passes the CRC check. Otherwise the pass that reaches a bad address yields `CrcMismatch` and the iterator ends (`Search.Gate`, `Search.RunStops`).
