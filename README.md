# DallasTemperature driver model

A Dafny model of the DallasTemperature Arduino driver (library version
4.0.0). The driver enumerates DS18S20, DS18B20 and DS1822 temperature
sensors on a 1-Wire bus and keeps a fixed table of six sensor records. For
each record it keeps the address, the current, minimum, maximum and average
temperature in hundredths of a degree, a running accumulator and reading
count, and a one-time cold offset. It also holds driver-wide state: the
enrolled device count, the parasite-power flag, the group resolution, and
the wait and check flags. It reads and writes device scratchpads, manages
the 9..12-bit resolution and waits for conversions.

The model is organised as follows:

- `CInt` gives the C integer widths, the two's-complement narrowing
  conversions (`Wrap16`, `Wrap32`) and C's truncating division
  (`TruncDiv`).
- `Layout` holds the header's constants, the `DeviceAddress` and
  `ScratchPad` types and the `Sensor` record.
- `OneWire` is the bus master, seen only at its interface:
  - reads come from a supplied byte and bit input, and read an idle (all
    ones) line past its end;
  - search walks a supplied list of addresses;
  - CRC-8 is an arbitrary function;
  - resets, selects, skips, writes and delays are appended to a ghost
    trace.
- `Codec` holds the CRC checks, the search filter `Accepted`, the
  temperature decode, and the read and write command sequences.
- `Stats` holds the statistics update of one scratchpad read (`Record`),
  its invariant `Healthy` (which rules out every int32 overflow) and its
  iteration `RecordAll`.
- `Resolution` holds the configuration-byte maps, the group clamp and the
  conversion delay table.
- `Units` holds the integer Fahrenheit accessor.
- `Driver` holds the `DallasTemperature` class. Its methods update the
  sensor array and the driver fields in place, in the order the C++ does.

The quirks of the code are modelled as written:

- `resetStats(uint8_t)` resets slot `devices`, whatever its argument.
- Every index at or past the enrolled count falls back to slot 0 (`Slot`).
  So `begin` probes the device it is adding on slot 0.
- `setResolution(index, …)` looks up the family at the unclamped index.
- In `begin`, `max(bitResolution, getResolution(devices))` is the
  Arduino 1.0 macro `((a)>(b)?(a):(b))`, so `getResolution` runs a second
  time whenever `bitResolution` is not greater than its first reply, and
  that second reply is the one stored (`MacroMax`, `ProbeResolution`).
- Where the C++ would index past the six-slot table, the model has a
  `requires`: `begin` requires the search to report at most six valid
  addresses, and `resetStats` requires fewer than six enrolled devices.

## Model

| member | source | states |
|---|---|---|
| CInt.Wrap16 | DallasTemperature.h:59 | narrowing to int16_t leaves every value in range unchanged |
| CInt.Wrap32 | DallasTemperature.h:60 | narrowing to int32_t leaves every value in range unchanged |
| CInt.WrapCongruent | DallasTemperature.h:59-62 | both narrowings keep the value modulo 2^16 and 2^32 |
| CInt.TruncDiv | DallasTemperature.cpp:190 | C division by a positive divisor keeps the sign of the dividend |
| CInt.TruncDivBounds | DallasTemperature.cpp:190-197 | the truncated quotient's magnitude is the exact quotient's magnitude rounded down |
| Layout.ScratchPadLayout | DallasTemperature.h:34-42 | the nine offsets are 0..8 in register order, each named once |
| Layout.ModelsDistinct | DallasTemperature.h:20-22 | the three family codes are pairwise distinct |
| Layout.IsFixedResolution | DallasTemperature.cpp:304 | the fixed-resolution family is exactly family code 0x10; DS18B20 and DS1822 are not it |
| Codec.Accepted | DallasTemperature.cpp:40-43 | the addresses enumeration keeps are never more than the search reported |
| Codec.AcceptedAppend | DallasTemperature.cpp:40-43 | filtering two halves of a search and concatenating gives the filter of the whole |
| Codec.ValidAddress | DallasTemperature.cpp:82-85 | an address is valid iff it is its first seven bytes followed by their CRC-8 |
| Codec.ScratchPadValid | DallasTemperature.cpp:102-106 | a scratchpad checks iff it is its first eight bytes followed by their CRC-8 |
| Codec.AcceptedAllValid | DallasTemperature.cpp:40-43 | a search whose every address passes the CRC check is enrolled whole, in order |
| Codec.AcceptedMembers | DallasTemperature.cpp:82-85 | an address is kept iff the search reported it and CRC-8 of bytes 0..6 equals byte 7 |
| Codec.RawTemp | DallasTemperature.cpp:176 | MSB:LSB is read as a two's-complement 16-bit value |
| Codec.RawTempRoundTrip | DallasTemperature.cpp:176 | every int16 register value is recovered from its two bytes |
| Codec.Hundredths | DallasTemperature.cpp:179-180 | raw*100 shifted right by 4 is floor(raw*100/16), within -2048.00..2047.93 degrees |
| Codec.HundredthsMonotone | DallasTemperature.cpp:179-180 | a larger register never decodes to a lower temperature |
| Codec.ReadCommands | DallasTemperature.cpp:115-200 | a scratchpad read is four bus events: a reset, then the select of the device and the 0xBE command, then the closing reset |
| Codec.ReadTrace | DallasTemperature.cpp:115-200 | a read keeps the earlier trace and adds four events after it, opening and closing with a reset |
| Codec.ReadTraceAppends | DallasTemperature.cpp:115-200 | a scratchpad read puts exactly reset, select, read command (lines 115-117) and the closing reset (line 200) on the line |
| Codec.WriteCommands | DallasTemperature.cpp:221-232 | a scratchpad write is at least eight bus events, opening with reset and the select of the device and closing with a reset |
| Codec.WriteTrace | DallasTemperature.cpp:221-232 | a write keeps the earlier trace and adds more than four events after it, opening and closing with a reset |
| Codec.WriteCommandsShape | DallasTemperature.cpp:218-233 | the write sends select, 0x4E and both alarms; the config byte iff not DS18S20; 0x48 with pull-up = parasite; 10 ms iff parasite; final reset |
| Codec.WriteTraceAppends | DallasTemperature.cpp:218-233 | the bus calls of a write add exactly the write's command sequence to the trace |
| Stats.Cleared | DallasTemperature.cpp:60-67 | a reset slot has min 90.00 and max -90.00 degrees and zero count, accumulator and average, keeping address, offset and current reading |
| Stats.Enrolled | DallasTemperature.cpp:44-46 | a freshly enrolled slot has the new address, offset 0, count 0 and satisfies the statistics invariant |
| Stats.LatchOffset | DallasTemperature.cpp:182 | the offset becomes 5500 only from 0 and only for a reading below -30.00; a set offset stays |
| Stats.TrackStep | DallasTemperature.cpp:184-187 | only current, min and max change; current is the narrowed reading, and a reading that fits int16 lies between the new min and max, each of which is either kept or the reading |
| Stats.AverageStep | DallasTemperature.cpp:188-198 | only accumulator, count and average change; a count at most 10000 before the read is between 1 and 10000 after it |
| Stats.Reading | DallasTemperature.cpp:179-183 | with the offset set, a read adds the decoded temperature plus the offset; with offset 0 it adds the decoded value, or that plus 5500 exactly when the decoded value is below -30.00 degrees |
| Stats.LatchStep | DallasTemperature.cpp:182 | the first step of a read changes only the offset, by LatchOffset |
| Stats.Record | DallasTemperature.cpp:176-198 | one read keeps the address, latches the offset and stores the narrowed reading as the current temperature |
| Stats.RecordKeepsHealthy | DallasTemperature.cpp:186-198 | a read keeps count <= 10000 and the accumulator bound; the count rises by one, or is halved with the accumulator once it passes 10000 |
| Stats.AverageStepBounded | DallasTemperature.cpp:186-198 | the averaging step never wraps the int32 accumulator and keeps count and accumulator within their bounds |
| Stats.RecordAverage | DallasTemperature.cpp:188-190 | the stored average is accumulator/count, truncated, taken before any halving |
| Stats.RecordBrackets | DallasTemperature.cpp:186-187 | after a read that fits int16, min <= reading <= max, each bound widened only to include the reading |
| Stats.SensorRangeFits | DallasTemperature.cpp:176-183 | a register in the sensors' -55..125 degree range gives a reading that fits int16 |
| Stats.RecordAll | DallasTemperature.cpp:109-201 | any sequence of reads keeps the statistics invariant and the address |
| Stats.CountStaysInBand | DallasTemperature.cpp:193-197 | once at 5000, the reading count stays within 5000..10000 forever |
| Stats.OffsetLatchesOnce | DallasTemperature.cpp:182 | once latched, the cold offset never changes again |
| Resolution.ConfigFor | DallasTemperature.cpp:270-284 | every request maps to one of the four configuration bytes |
| Resolution.BitsFor | DallasTemperature.cpp:308-323 | a configuration byte maps to 9..12, or 0 for an unknown byte |
| Resolution.BitsForConfigFor | DallasTemperature.cpp:270-284 | set-then-get gives the request for 10..12 bits and 9 for any other request |
| Resolution.ConfigForBitsFor | DallasTemperature.h:45-48 | every recognised configuration byte is the byte its resolution is set with |
| Resolution.ConfigForInjective | DallasTemperature.h:45-48 | distinct resolutions in 9..12 are configured by distinct bytes |
| Resolution.Clamp | DallasTemperature.cpp:253 | constrain(x, 9, 12) lies in 9..12 and is x whenever x already does |
| Resolution.ConversionDelay | DallasTemperature.cpp:397-412 | for 9..12 bits the wait is 750 ms halved once per bit below 12, rounded up; any other value waits 750 ms |
| Resolution.ConversionDelayMonotone | DallasTemperature.cpp:397-412 | a finer resolution never waits less |
| Units.FahrenheitAsWritten | DallasTemperature.cpp:208-215 | getFahrenheit's result keeps the sign and never exceeds the input's magnitude |
| Units.Fahrenheit | DallasTemperature.cpp:208-215 | hundredths Celsius map to hundredths Fahrenheit: 3200 plus 1.8 times the input, truncated |
| Units.FahrenheitFixedPoints | DallasTemperature.cpp:208-215 | 0 and 100 degrees map to 32 and 212 degrees, and whole degrees map exactly |
| Units.FahrenheitAsWrittenMisses | DallasTemperature.cpp:208-215 | the written arithmetic gives 0 and 55.55 where 32 and 212 are due |
| Driver.Slot | DallasTemperature.cpp:111 | an index at or past the count falls back to slot 0, and otherwise is kept |
| Driver.ResolutionReply | DallasTemperature.cpp:301-326 | DS18S20 reports 9; a scratchpad failing the CRC reports 0; otherwise 0 or 9..12 |
| Driver.SetThenGet | DallasTemperature.cpp:262-326 | a device keeping the byte written for 9..12 bits reports that resolution back (9 for DS18S20) |
| Driver.ResolutionTraceShape | DallasTemperature.cpp:262-291 | a per-device request reads first, then writes iff the CRC checks and the family is not DS18S20 |
| Driver.ResolutionTrace | DallasTemperature.cpp:265-287 | a per-device request keeps the earlier trace and adds at least one read; for DS18S20 it is exactly one read |
| Driver.GroupTrace | DallasTemperature.cpp:254-257 | with no slots the trace is unchanged; each slot adds at least one read's four events |
| Driver.GroupTraceStep | DallasTemperature.cpp:251-258 | the group request over one more slot appends that slot's per-device request |
| Driver.GroupTraceExtends | DallasTemperature.cpp:251-258 | the group request keeps the earlier trace and adds at least one read per slot |
| Driver.DropStep | DallasTemperature.cpp:254-257 | the loop's i-th read consumes input bytes 9i..9i+8 |
| Driver.GroupTraceNext | DallasTemperature.cpp:254-257 | a resolution request for slot i after the group request over slots 0..i-1 is the group request over slots 0..i |
| Driver.Processed | DallasTemperature.cpp:254-257 | the slots after the group loop has handled the first n: same length, the slots from n on untouched |
| Driver.ProcessedSlots | DallasTemperature.cpp:254-257 | every handled slot k holds one read of input bytes 9k..9k+8 on its original state |
| Driver.ProcessedNext | DallasTemperature.cpp:254-257 | reading slot n from its own nine bytes takes the loop state from n handled slots to n+1 |
| Driver.RecordAllSnoc | DallasTemperature.cpp:109-201 | one more read extends a slot's history by that read |
| Driver.RecordAllAppend | DallasTemperature.cpp:109-201 | reading through two histories in turn is reading through their concatenation |
| Driver.AcceptedPrefix | DallasTemperature.cpp:40-43 | the table of a prefix of the search is a prefix of the full table |
| Driver.AcceptedStep | DallasTemperature.cpp:40-43 | one more search result grows the table by it iff its CRC checks |
| Driver.AcceptedNext | DallasTemperature.cpp:40-55 | a kept address means the table so far is shorter than the final one, so its slot exists |
| Driver.Max | DallasTemperature.cpp:54 | the larger of two values |
| Driver.MacroMax | DallasTemperature.cpp:54 | the macro's result is the first operand or the second evaluation, and the larger of the two when both evaluations agree |
| Driver.NextPads | DallasTemperature.cpp:109-201 | the j-th of the next three scratchpads is the nine bytes from 9j of the input |
| Driver.NextPadsShift | DallasTemperature.cpp:50-54 | after one scratchpad read, the next scratchpads are the later ones of the input |
| Driver.ResolutionReads | DallasTemperature.cpp:54 | the macro reads no scratchpad for DS18S20, two when bitResolution is not above the first reply, one otherwise |
| Driver.ProbeReadCount | DallasTemperature.cpp:50-54 | begin's probes read one scratchpad for DS18S20 and two or three otherwise |
| Driver.ProbeBits | DallasTemperature.cpp:54 | the macro leaves bitResolution unchanged when it exceeds the first reply, max(bits, 9) for DS18S20, and otherwise 0 or 9..12 |
| Driver.IntendedProbeBits | DallasTemperature.cpp:54 | the intended fold never lowers bitResolution and takes either it or the device's reply |
| Driver.ProbeBitsMisses | DallasTemperature.cpp:54 | from 9 bits, a 12-bit reply followed by a read failing its CRC makes begin read three scratchpads and set 0 where 12 is due |
| Driver.PowerTrace | DallasTemperature.cpp:240-244 | once parasite power has been seen the query adds nothing; otherwise it adds exactly reset, select, 0xB4, reset after the kept trace |
| Driver.ReadTraces | DallasTemperature.cpp:50-54 | n reads of one device keep the earlier trace and add 4n events after it |
| Driver.QueriesCompose | DallasTemperature.cpp:54 | getResolution's one or two reads inside begin take the next scratchpads on the line in order and consume exactly their bytes |
| Driver.ProbeStep | DallasTemperature.cpp:48-54 | one device's probes latch parasite power on a 0 power bit, after which no bit is read; they read one to three scratchpads and add at least one read to the trace; bitResolution stays or becomes 0 or 9..12 |
| Driver.ProbeIter | DallasTemperature.cpp:40-55 | the probes of n devices never clear parasite power, read between n and 3n scratchpads, and leave bitResolution unchanged, 0 or 9..12 |
| Driver.ProbedAfter | DallasTemperature.cpp:40-55 | the probes of a table leave everything as it was for an empty table; otherwise parasite never falls, |table| to 3 |table| scratchpads are read, and bitResolution is unchanged, 0 or 9..12 |
| Driver.ProbedAfterStep | DallasTemperature.cpp:42-55 | enrolling one more address adds exactly one device's probes, made on the table's first address |
| Driver.ProbedAfterNext | DallasTemperature.cpp:40-55 | a search pass that leaves the table alone keeps the probe state; one that enrolls an address advances it by one probe step, so the state is always ProbedAfter of the table |
| Driver.FirstAddress | DallasTemperature.cpp:44-54 | once the next slot holds the new address, slot 0 (where every probe goes) holds the table's first address |
| Driver.DiscoveredIn | DallasTemperature.cpp:40-55 | a table state has six slots and a count equal to the table's length; every enrolled slot after slot 0 has count 0, offset 0 and the minimum sentinel; slot 0 holds the table's first address |
| Driver.ReadTracesAppend | DallasTemperature.cpp:109-201 | a reads of a device followed by b reads are a + b reads |
| Driver.DropDrop | DallasTemperature.cpp:109-201 | reading a bytes then b bytes consumes a + b bytes |
| Driver.RecordAllOne | DallasTemperature.cpp:109-201 | a history of one read is that read's Record |
| Driver.RecordAllTwo | DallasTemperature.cpp:109-201 | a history of two reads is their Records in order |
| Driver.EnrollStep | DallasTemperature.cpp:42-55 | enrolling an address then probing slot 0 extends the table by the address and slot 0's history by the probes |
| Driver.EnrollSlots | DallasTemperature.cpp:44-46 | enrolling fills slot n with the address and fresh statistics and leaves later slots untouched |
| Driver.EnrollFirst | DallasTemperature.cpp:48-54 | slot 0's history starts afresh with the first device and then grows by each probe |
| Driver.ResetAllAsWritten | DallasTemperature.cpp:69-72 | the written resetStats() leaves every enrolled slot unchanged |
| Driver.ResetAll | DallasTemperature.cpp:69-72 | the intended resetStats() makes every enrolled slot Cleared (sentinels 9000 and -9000, zero count, accumulator and average, address, offset and current kept) and touches no other slot |
| Driver.ResetStatsPastTable | DallasTemperature.cpp:40-67 | six search addresses whose CRCs check are all enrolled, so begin leaves the count at 6 and resetStats then writes slot 6, past the table |
| Driver.ResetAllAsWrittenMisses | DallasTemperature.cpp:60-72 | with one enrolled device that has readings, the written loop keeps them where the intended one clears them |
| Driver.DallasTemperature.constructor | DallasTemperature.cpp:20-28 | no devices, no parasite power, 9 bits, both flags set, blank table |
| Driver.DallasTemperature.Begin | DallasTemperature.cpp:31-58 | after the whole search, the table holds exactly the CRC-valid addresses in order; the other enrolled slots are freshly reset; slot 0 is reset and then read through the scratchpads the probes read; slots past the count are unchanged; the parasite flag, bitResolution, the unread bytes and bits, the bus trace and those scratchpads are exactly ProbedAfter of the table, one ProbeStep per device; parasite only goes false to true; bitResolution stays, or becomes 0 or 9..12 |
| Driver.DallasTemperature.Discover | DallasTemperature.cpp:40-56 | the search loop runs to the end of the search, builds the table of the CRC-valid addresses and leaves the probe state at ProbedAfter of that table |
| Driver.DallasTemperature.SearchStep | DallasTemperature.cpp:40-56 | one search result is taken; the table grows by it iff its CRC checks, and the probe state advances by one ProbeStep exactly when it grows |
| Driver.DallasTemperature.NextCandidate | DallasTemperature.cpp:40-43 | the next search result is taken; the accepted table grows by it iff its CRC checks, and a kept address still has a slot |
| Driver.DallasTemperature.Consider | DallasTemperature.cpp:42-55 | a CRC-valid address is enrolled and probed, one ProbeStep on slot 0's address; any other address changes nothing |
| Driver.DallasTemperature.Enroll | DallasTemperature.cpp:42-55 | a valid address is enrolled in the next slot, probed and counted; the table invariant is kept and the probe state becomes exactly ProbeStep of the old one on the table's first address |
| Driver.DallasTemperature.ProbeEnrolled | DallasTemperature.cpp:48-55 | once slot d holds the address, the probes and the count extend the table by it and advance the probe state by exactly one ProbeStep |
| Driver.DallasTemperature.Admit | DallasTemperature.cpp:44-46 | slot d gets the address, reset statistics and offset 0; no other slot changes |
| Driver.DallasTemperature.Probe | DallasTemperature.cpp:48-54 | the parasite flag, bitResolution, the unread bytes and bits, the trace and the scratchpads read become exactly ProbeStep of their old values on slot 0's address: parasite latches a 0 power reply, the next ProbeReadCount scratchpads are read, bitResolution becomes ProbeBits; slot 0 alone changes, by RecordAll of those scratchpads |
| Driver.DallasTemperature.ProbePower | DallasTemperature.cpp:48 | once parasite is set no bit is read and nothing is sent; otherwise one bit is read inside the power query, and parasite becomes true iff it is 0 |
| Driver.DallasTemperature.ProbeReads | DallasTemperature.cpp:50-54 | readScratchPad then the max macro's getResolution calls read exactly the next ProbeReadCount scratchpads on slot 0, fold each into its record, and set bitResolution to ProbeBits |
| Driver.DallasTemperature.ProbeResolution | DallasTemperature.cpp:54 | the macro's first getResolution, and a second one when bitResolution is not greater than the first reply; bitResolution becomes MacroMax of the two replies |
| Driver.DallasTemperature.QueryResolution | DallasTemperature.cpp:301-326 | inside begin, DS18S20 answers 9 with no read; any other family reads the next scratchpad into slot 0 and answers ResolutionReply of it |
| Driver.DallasTemperature.CopyAddress | DallasTemperature.cpp:44 | the byte loop puts exactly the search address in the slot and changes nothing else |
| Driver.DallasTemperature.ResetStats | DallasTemperature.cpp:60-67 | slot `devices` is cleared, whatever the argument, and no other slot changes |
| Driver.DallasTemperature.ResetAllStats | DallasTemperature.cpp:69-72 | the table becomes ResetAllAsWritten of the old table |
| Driver.DallasTemperature.GetDeviceCount | DallasTemperature.cpp:76-79 | returns the enrolled count |
| Driver.DallasTemperature.ReadScratchPad | DallasTemperature.cpp:109-201 | the next nine input bytes are read in offset order between reset/select/0xBE and a final reset; only the reached slot changes, by Record |
| Driver.DallasTemperature.Fold | DallasTemperature.cpp:176-198 | the in-place statistics update computes Record |
| Driver.DallasTemperature.Accumulate | DallasTemperature.cpp:186-198 | the accumulator, count, average and halving updates compute the averaging step |
| Driver.DallasTemperature.FoldReading | DallasTemperature.cpp:176-198 | slot i becomes Record of itself, the others are unchanged, and every slot stays within the invariant |
| Driver.DallasTemperature.IsConnected | DallasTemperature.cpp:102-106 | the scratchpad is read and the statistics updated; the result is true iff CRC-8 of bytes 0..7 equals byte 8 |
| Driver.DallasTemperature.ReadSensor | DallasTemperature.cpp:87-98 | the same as isConnected, on the next nine input bytes |
| Driver.DallasTemperature.GetCelsius | DallasTemperature.cpp:203-206 | returns the slot's current temperature, index unchecked |
| Driver.DallasTemperature.GetFahrenheit | DallasTemperature.cpp:208-215 | returns FahrenheitAsWritten of the slot's current temperature |
| Driver.DallasTemperature.WriteScratchPad | DallasTemperature.cpp:218-233 | the bus trace grows by exactly the write sequence for the reached slot's family and the parasite flag |
| Driver.DallasTemperature.ReadPowerSupply | DallasTemperature.cpp:236-246 | the result is true iff the device answers 0, inside reset/select/0xB4/reset |
| Driver.DallasTemperature.SetGlobalResolution | DallasTemperature.cpp:251-258 | bitResolution = clamp(b, 9, 12); slots 0..devices-1 are processed in order, each reading its own nine bytes; the trace is the group request |
| Driver.DallasTemperature.GroupRequest | DallasTemperature.cpp:254-257 | slots 0..devices-1 are processed in order, each reading its own nine bytes; later slots are unchanged; the trace is the group request |
| Driver.DallasTemperature.GroupPass | DallasTemperature.cpp:254-257 | one pass of the group loop extends the processed prefix by slot i |
| Driver.DallasTemperature.SetResolution | DallasTemperature.cpp:262-291 | ok iff the scratchpad's CRC checks; its config byte is written back unless the family is DS18S20 |
| Driver.DallasTemperature.GetGlobalResolution | DallasTemperature.cpp:294-297 | returns bitResolution |
| Driver.DallasTemperature.GetResolution | DallasTemperature.cpp:301-326 | DS18S20 gives 9 with no bus traffic; otherwise a read whose reply is ResolutionReply |
| Driver.DallasTemperature.SetWaitForConversion | DallasTemperature.cpp:334-337 | stores the flag |
| Driver.DallasTemperature.GetWaitForConversion | DallasTemperature.cpp:340-343 | returns the flag |
| Driver.DallasTemperature.SetCheckForConversion | DallasTemperature.cpp:349-352 | stores the flag |
| Driver.DallasTemperature.GetCheckForConversion | DallasTemperature.cpp:355-358 | returns the flag |
| Driver.DallasTemperature.IsParasitePowerMode | DallasTemperature.cpp:496-499 | returns the parasite flag |
| Driver.DallasTemperature.IsConversionAvailable | DallasTemperature.cpp:360-367 | reads the reached slot's scratchpad; true iff its temperature LSB is non-zero |
| Driver.DallasTemperature.RequestTemperatures | DallasTemperature.cpp:371-382 | reset, skip, 0x44 with pull-up = parasite; then the delay for bitResolution iff waitForConversion |
| Driver.DallasTemperature.BlockTillConversionComplete | DallasTemperature.cpp:384-414 | waits exactly ConversionDelay(bits), independent of the check flag and the index |

## Left out

- The floating-point accessors calculateTemperature, getTempC,
  getTempF, getMaxTempC, getMinTempC, getAvgTempC, toFahrenheit and
  toCelsius are not modelled: they are float arithmetic.
- The DS2480B transport is modelled only as the `OneWire.Bus` interface:
  - `_wire->begin()` has no effect in the model;
  - the CRC-8 is an arbitrary function rather than the Maxim polynomial;
  - a read past the supplied input returns 0xFF, and a bit read returns 1.
- `write(v)` without a pull-up argument is modelled with the pull-up off.
- Time is not modelled: a wait is a `Delay(ms)` event in the trace.
- The commented-out polling loop of blockTillConversionComplete is not
  modelled, so the check flag plays no part, as in the code.
- operator new and delete under REQUIRESNEW are not modelled: they are
  memory plumbing.
- The Arduino include shims are not modelled.
- Members the header declares but the source never defines
  (isConversionComplete, the fault setters, isFaulted and the fault
  fields) are not modelled.
- The unused DEVICE_DISCONNECTED constant is not modelled.
- The C++ leaves the sensor table uninitialised. The constructor fills it
  with blank records, and the contracts of `begin` are stated relative to
  whatever the table held before.
- Driver.DallasTemperature.ResetStats: it requires fewer than six
  enrolled devices, because with six the C++ writes `sensors[6]`, past the
  table (see Findings).
- Driver.DallasTemperature.ResetAllStats: it requires fewer than six
  enrolled devices, for the same reason.
- Driver.ResetAllAsWritten: it requires the count to be below the table
  size, for the same reason.
- Driver.DallasTemperature.Begin: it requires the search to report at
  most six CRC-valid addresses, because beyond that the C++ writes past
  the six-slot table.
- isConnected(index) without a scratchpad argument is not modelled
  separately: it is the same read as readSensor (`ReadSensor`).

## Findings

| source | as written | input that shows it | evidently intended | confidence | as-written member | corrected member |
|---|---|---|---|---|---|---|
| DallasTemperature.cpp:208-215 | getFahrenheit returns currentTemp*10/18, which scales by 5/9, the Fahrenheit-to-Celsius factor, and adds no 32-degree shift | currentTemp = 0 (0.00 degrees C) gives 0 instead of 3200; 10000 gives 5555 instead of 21200 | currentTemp*18/10 + 3200, hundredths of a degree Fahrenheit | not executed; high | Units.FahrenheitAsWrittenMisses | Units.FahrenheitFixedPoints |
| DallasTemperature.cpp:60-72 | resetStats(uint8_t) ignores its argument and resets slot `devices`, so resetStats() resets the slot past the enrolled ones once per device | one enrolled device with readings: resetStats() leaves its count and accumulator in place | each enrolled slot 0..devices-1 reset | not executed; high | Driver.ResetAllAsWrittenMisses | Driver.ResetAll |
| DallasTemperature.cpp:60-67 | resetStats(uint8_t) writes `sensors[devices]`, and begin can enroll six devices | begin over a search of six CRC-valid addresses, then resetStats() or resetStats(i): the write goes to `sensors[6]`, one past the six-slot table | each enrolled slot 0..devices-1 reset, with no write past the table | not executed; high | Driver.ResetStatsPastTable | Driver.ResetAll |
| DallasTemperature.cpp:54 | bitResolution = max(bitResolution, getResolution(devices)) with Arduino 1.0's macro max calls getResolution again when bitResolution is not greater than the first reply and stores the second reply | bitResolution 9, one DS18B20 whose first resolution read checks with byte 0x7F and whose second fails its CRC: bitResolution becomes 0 and three scratchpads are read, where 12 and two reads are due | the larger of bitResolution and a single reply | not executed; medium | Driver.ProbeBitsMisses | Driver.IntendedProbeBits |
