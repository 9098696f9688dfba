# Verified model of the GDB server stub's time-travel shadow

The repository is a GDB server stub for HDL simulations. It keeps a shadow of the simulated CPU (registers,
memory blocks, memory-mapped I/O), logs every retired instruction in a trace, and lets the debugger step and
continue forward *and backward* through that trace. This project models three parts of it and proves what they
promise:

- **Time travel**: the record/replay/undo machine of `gdb_shadow` and the stepping and continue loops that drive
  it (`MemoryMap`, `ShadowState`, `Effects`, `TimeTravel`, `Exactness`, `Visits`, `ShadowHistory`,
  `RegisterHistory`, `Streams`, `Continue`, `Points`, `Shadow`, `Stub`).
- **Memory and register packets**: first-match block memory and the `m`, `M`, `g`, `G`, `z`, `Z` packets
  (`FlatMemory`, `Hex`, `Fields`, `AccessPackets`, `AccessServer`).
- **Packet framing**: reception in arbitrary chunks and transmission by partial sends (`Framing`).

`dafny verify dfyconfig.toml` checks everything.

## How it is built

The classes `GdbShadow`, `GdbServerStub` and `Packet` keep the source's fields and change them in place. Each of
their methods is tied to a value-level meaning: `View()` is the shadow as a value, and update, replay and revert are
lists of single-location writes (`UpdateLog`, `ReplayLog`, `RevertLog`). What these lists, the point tables, the
register numbers, the digits and the checksum mean is stated again without them, field by field (`Effects`,
`PacketsDecideStop`, `RegAtIsField`, `SetRegsFields`, `DigitsAreUsual`, `SumOfParts`). `State()` is the whole stepping machine as a
value. The results about runs are lemmas about those values. `TimeTravel`, `Exactness`, `Visits` and `Continue` are
stated for any shadow type `S` and entry type `E`; `ShadowHistory` instantiates them with the CPU shadow.

The DUT is the list of instructions it has yet to retire. A forward step that needs an instruction when none is left
waits in `dut_step` for ever; the machine then does not change. Ctrl+C is a nondeterministic choice in every pass of
the two continue loops.

## Three readings of `forward`

`forward` tests `cnt == trc.size()` after the increment (hdl/gdb_shadow_pkg.sv:352), but `rsp_forward_step` has
already pushed the entry (hdl/gdb_server_stub_pkg.sv:999-1005), so the test never succeeds and `update` and `record`
never run (`WrittenGuardNeverHolds`). README.adoc:252-288 describes recording each newly pushed entry, and in its
replay list (README.adoc:280-284) an update of the entry replayed to, which the code does not have. The model has all
three, as the parameter `Guard`, and every result says which it is about:

- `AsWritten`: the code, literally.
- `OnAppend`: the code with the test the documentation describes.
- `AsDocumented`: `OnAppend`, and the documented update in the replay branch.

## What time travel promises, and when it keeps it

Two properties are told apart.

- **Stepping back** (`Backs`) is the promise of README.adoc:174-175: after n forward and j backward steps the shadow
  is that of n - j forward steps. It is false in general under every reading (as written: `WrittenCanFail`).
  `SteppingBackCanFail` has two stores to one I/O register with an unrelated instruction between them: `update` writes
  the load data of every entry, an empty array included (hdl/gdb_shadow_pkg.sv:281), so arriving at the second store
  erases the register in the shadow, and reverting the unrelated instruction does not bring it back. `ShadowBacksIff`
  is the exact condition: what the update for instruction k+1 changes is among what instruction k writes (for
  `AsWritten`: the DUT reports the old value of all that instruction k overwrites).
- **Every revisit** (`Exact`) is stronger than that sentence (`ExactImpliesBacks`): any two runs that end at one
  position show one shadow, so moving forward again must agree too. `MovingForwardAgainCanFail` has a stream that
  steps back exactly and does not move forward again exactly under `OnAppend`, and is exact in every way under
  `AsDocumented`. `ShadowExactIff` is the exact condition; `OnAppendIsExactIffQuiet` and `WrittenIsExactIffReversible`
  put it as one condition on the DUT stream. Under `AsDocumented` only block memory can break it once stepping back
  works (`DocumentedReplayIsExact`, `DocumentedReplayCanFail`).

Both are also proved location by location, where a register or an address can be exact while others are not.

## Model

| member | source | states |
|---|---|---|
| MemoryMap.DecodeIsFirstHit | hdl/gdb_shadow_pkg.sv:230-236 | the block that serves an address is the first one containing it, with block ends computed modulo 2^32; no block means I/O |
| MemoryMap.DecodeIsFirstContaining | hdl/gdb_shadow_pkg.sv:230-236 | an address decodes if and only if some block ending below 2^32 contains it, to its distance from the base of the first such block |
| MemoryMap.DecodeIsInjective | hdl/gdb_shadow_pkg.sv:250-253 | two addresses never share a byte, even when blocks overlap |
| ShadowState.ApplyIsIdentityIffSettled | hdl/gdb_shadow_pkg.sv:270-335 | the writes of an update, replay or revert change nothing exactly when each location they list already holds the last value listed for it |
| ShadowState.RecordIsRecorded | hdl/gdb_shadow_pkg.sv:285-301 | record keeps what an entry replays and stores, for each location replay overwrites, its current value |
| ShadowState.RevertUndoesReplay | hdl/gdb_shadow_pkg.sv:285-335 | an entry recorded against any shadow is undone exactly: PC, GPR, CSR, memory and I/O, repeated indices included |
| ShadowState.RevertUndoesReplayIff | hdl/gdb_shadow_pkg.sv:303-335 | for an arbitrary entry, revert undoes replay if and only if the entry carries the old value of all it leaves changed |
| ShadowState.UpdateRecordIsIdempotent | hdl/gdb_shadow_pkg.sv:270-301 | repeating update and record on a just-recorded entry changes neither shadow nor entry, overlapping accesses included |
| ShadowState.UpdateKeepsGpr | hdl/gdb_shadow_pkg.sv:268-282 | update never writes a general purpose register |
| ShadowState.StoreReadsBack | hdl/gdb_shadow_pkg.sv:224-262 | what was stored at an address is what a read of that size returns, in any map and in the I/O space |
| Effects.ReplayEffect | hdl/gdb_shadow_pkg.sv:303-318 | after replay the PC is the next PC, each GPR and CSR named has the new value of its last change and every other keeps its own, and the store data is at its bytes and nothing else in memory and I/O changed |
| Effects.RevertEffect | hdl/gdb_shadow_pkg.sv:320-335 | the same for revert with the instruction's PC, old register values and old memory data |
| Effects.UpdateEffect | hdl/gdb_shadow_pkg.sv:268-282 | the same for update: fetched data, PC, CSR values read, then loaded data over it; no GPR changes |
| Effects.RecordEffect | hdl/gdb_shadow_pkg.sv:285-301 | recording takes the PC and every old value from the shadow and keeps the illegal flag, next PC, data address, indices and new values |
| Effects.LoadIsSlice | hdl/gdb_shadow_pkg.sv:224-242 | a read is the slice of the block at the decoded offset, or the I/O entry |
| FlatMemory.StoreIsByteByByte | hdl/gdb_shadow_pkg.sv:245-262 | with disjoint blocks a store of many bytes equals storing them one address at a time |
| FlatMemory.StoreRefinesFlatMemory | hdl/gdb_shadow_pkg.sv:224-262 | with disjoint blocks a store changes exactly the bytes of its range of the flat address space and nothing else |
| FlatMemory.LoadIsFlat | hdl/gdb_shadow_pkg.sv:224-242 | a read of a range returns the flat bytes of its addresses |
| FlatMemory.LatestStoreIsSeen | hdl/gdb_shadow_pkg.sv:224-262 | after any sequence of block stores each address holds the byte of the latest store touching it |
| TimeTravel.TraceOnlyGrows | hdl/gdb_server_stub_pkg.sv:995-1006 | in every run the trace only grows at its end, taking the DUT's instructions in order; recorded entries never change |
| TimeTravel.WrittenGuardNeverHolds | hdl/gdb_shadow_pkg.sv:349-355 | in every reachable state the test as written fails, and the trace is the DUT stream unrecorded |
| TimeTravel.HighWaterMark | hdl/gdb_server_stub_pkg.sv:995-1116 | in every run the trace ends at the furthest position reached, the position is forward less backward moves, and each entry cost one DUT step and one recording (none under the written guard) |
| Exactness.BacksIff | README.adoc:174-175 | any guard, any view of any shadow: stepping back shows what was shown going forward if and only if reverting each entry of the straight run does |
| Exactness.ExactIff | README.adoc:169-175 | any guard, any view: all runs agree at all positions if and only if each entry of the straight run can be walked both ways |
| Exactness.ExactImpliesBacks | README.adoc:174-175 | any guard, any view: where all runs agree, stepping back shows what was shown going forward |
| Exactness.BacksIffOnStream | README.adoc:174-175 | the condition for stepping back in terms of the DUT stream alone, for any shadow whose recording keeps what an entry replays |
| Exactness.ExactIffOnStream | README.adoc:169-175 | the condition for every revisit in terms of the DUT stream alone |
| Exactness.ExactIsFold | hdl/gdb_shadow_pkg.sv:341-377 | `AsWritten` and `OnAppend`, where every revisit is exact: the shadow at every position of every run is the fold of replay over the trace up to it |
| ShadowHistory.ShadowBacksIff | README.adoc:174-175 | any guard: stepping back gives exactly the shadow seen going forward, if and only if no update changes a location that the instruction before it does not write (as written: if and only if old values are reported) |
| ShadowHistory.ShadowExactIff | README.adoc:169-175 | any guard: any two runs ending at one position show one shadow, if and only if every location can be stepped back over and replayed at every instruction |
| ShadowHistory.LocationBacksIff | README.adoc:174-175 | any guard: the same for stepping back, at a single location |
| ShadowHistory.LocationExactIff | README.adoc:169-175 | any guard: the same for every revisit, at a single location; as written, the location is exact if and only if each instruction that overwrites it reports its old value |
| ShadowHistory.OnAppendIsExactIffQuiet | hdl/gdb_shadow_pkg.sv:341-377 | `OnAppend`: every revisit is exact if and only if each later instruction finds in the shadow what the DUT reports it read |
| ShadowHistory.DocumentedReplayIsExact | README.adoc:280-284 | `AsDocumented`: at the PC, registers and I/O registers every revisit is exact if and only if stepping back is |
| ShadowHistory.WrittenIsExactIffReversible | hdl/gdb_shadow_pkg.sv:341-377 | `AsWritten`: stepping back is exact, and so is every revisit, if and only if each instruction but the last arrives with the old values of all it overwrites |
| Streams.SteppingBackCanFail | hdl/gdb_shadow_pkg.sv:270-335 | `OnAppend` and `AsDocumented`: two stores to one I/O register with an unrelated instruction between them make stepping back inexact |
| Streams.MovingForwardAgainCanFail | README.adoc:280-284 | two adjacent stores to one I/O register: under `OnAppend` stepping back is exact and moving forward again is not; under `AsDocumented` every revisit is exact |
| Streams.DocumentedReplayCanFail | README.adoc:280-284 | `AsDocumented`: a load that reads other than what was stored steps back exactly and does not move forward again exactly |
| Streams.WrittenCanFail | hdl/gdb_shadow_pkg.sv:346-355 | `AsWritten`: a register write with an unreported old value makes stepping back show a value that never was |
| ShadowHistory.LocationIsExact | hdl/gdb_shadow_pkg.sv:270-335 | `OnAppend` and `AsDocumented`: a location no update above position p changes shows its first-visit value at every position of any run staying at or above p |
| ShadowHistory.GprIsExact | hdl/gdb_shadow_pkg.sv:268-335 | `OnAppend` and `AsDocumented`: all runs ending at one position agree on every general purpose register, whatever the DUT reports (false as written, by `WrittenCanFail`) |
| RegisterHistory.EveryRunShowsRegisters | hdl/gdb_shadow_pkg.sv:303-360 | `OnAppend` and `AsDocumented`: at every position of every run, forward, backward or again, each GPR shows the value last written to it by the DUT's instructions before that position |
| RegisterHistory.StraightShowsRegisters | hdl/gdb_shadow_pkg.sv:303-360 | the same for the straight forward run under any guard, the code as written included |
| RegisterHistory.EveryRunShowsPc | README.adoc:280-284 | `AsDocumented`: at every position of every run the PC is the address of the instruction there |
| RegisterHistory.OnAppendPcIsExactIff | hdl/gdb_shadow_pkg.sv:303-360 | `OnAppend`: all runs agree on the PC if and only if each instruction is fetched from the next PC of the one before |
| Visits.ViewIsExact | README.adoc:174-175 | any guard: in any run that stays at or above a position, a part of the shadow that later arrivals leave alone and entries undo (and, under `AsDocumented`, do not update again) shows its first-visit value at each position |
| Visits.ArrivalsUpdateAndRecord | README.adoc:273-279 | `OnAppend` and `AsDocumented`: each position is updated and recorded once, at its first visit, from the DUT's instruction for it |
| Continue.ReverseStopsAtGreatestMatch | hdl/gdb_server_stub_pkg.sv:1133-1155 | reverse-continue stops at the greatest earlier matching position, or at 0 |
| Continue.ContinueStopsAtLeastMatch | hdl/gdb_server_stub_pkg.sv:1070-1089 | continue stops at the least later matching position over replayed and new entries, pulling no more from the DUT than needed, and waits only if nothing matches |
| Continue.ContinueReturns | hdl/gdb_server_stub_pkg.sv:1070-1155 | from a matching position, reverse-continue then continue return to it with no DUT step |
| Continue.ContinueUndoesReverse | hdl/gdb_server_stub_pkg.sv:1070-1155 | and where time travel is exact the whole machine is as before |
| Stub.QuietContinueUndoesReverse | hdl/gdb_server_stub_pkg.sv:1070-1155 | `OnAppend`: the same for the CPU shadow, from the condition on the DUT stream |
| Stub.ReversedIsRun | hdl/gdb_server_stub_pkg.sv:1133-1155 | however a reverse-continue ends, Ctrl+C included, it made exactly the backward steps between the two positions, so the stub is still at the end of a run |
| Stub.EndedIsRun | hdl/gdb_server_stub_pkg.sv:1070-1089 | the same for continue and forward steps |
| Points.ObserveSignalsMatches | hdl/gdb_shadow_pkg.sv:422-470 | matching an entry raises a signal exactly when it is illegal, an EBREAK, at a hardware breakpoint or hits a watchpoint; a watchpoint overrides SIGILL and the breakpoint's reason; an illegal instruction or an EBREAK alone keeps the earlier reason |
| Points.ReasonIsThatOfLastHit | hdl/gdb_shadow_pkg.sv:422-470 | after any entries the reason shown is the point hit by the latest entry that hit one |
| Points.PacketsDecideStop | hdl/gdb_shadow_pkg.sv:383-470 | after any `Z`/`z` packets, from the packets and literal type and signal numbers alone: which entry stops with which signal and reason (type 1 on fetch, 2 when data is stored, 3 when none is, 4 either way, type 0 never) |
| Points.EbreakIsEncoded | hdl/gdb_shadow_pkg.sv:434-435 | an instruction is taken for an EBREAK if and only if its bytes spell 0x00100073 or 0x9002 |
| Points.RecordingKeepsStops | hdl/gdb_shadow_pkg.sv:285-301 | a recorded entry stops the debugger as the DUT's instruction does, its fetched data aside |
| Points.LastEditDecides | hdl/gdb_shadow_pkg.sv:383-416 | after any packets, a table entry is what the last packet of its family and address made it |
| Points.OtherEditsKeep | hdl/gdb_shadow_pkg.sv:383-416 | packets of other families, addresses or unknown types leave it alone |
| Points.EditsCommute | hdl/gdb_shadow_pkg.sv:383-416 | edits of different addresses or families commute |
| Shadow.GdbShadow.constructor | hdl/gdb_shadow_pkg.sv:162-179 | x0 and memory zero, no I/O, empty trace, position -1, SIGTRAP with the all-zero reason, no points |
| Shadow.GdbShadow.RegWrite | hdl/gdb_shadow_pkg.sv:186-199 | writes the GPR, the PC or the CSR the register number means and nothing else |
| Shadow.GdbShadow.RegRead | hdl/gdb_shadow_pkg.sv:202-217 | reads the register the number means |
| Shadow.GdbShadow.MemRead | hdl/gdb_shadow_pkg.sv:224-242 | the block search and slice return the bytes of the decoded cells, or the whole I/O entry |
| Shadow.GdbShadow.MemWrite | hdl/gdb_shadow_pkg.sv:245-262 | the block search and slice assignment amount to single-byte writes of the decoded cells, or one I/O write |
| Shadow.GdbShadow.Update | hdl/gdb_shadow_pkg.sv:270-282 | fetch data, PC, CSR reads, load data, in that order |
| Shadow.GdbShadow.Record | hdl/gdb_shadow_pkg.sv:285-301 | the entry with every old value taken from the shadow |
| Shadow.GdbShadow.Replay | hdl/gdb_shadow_pkg.sv:303-318 | next PC, GPR and CSR writes, store data, in that order |
| Shadow.GdbShadow.Revert | hdl/gdb_shadow_pkg.sv:320-335 | PC, old GPR and CSR values, old memory data, in that order |
| Shadow.GdbShadow.Forward | hdl/gdb_shadow_pkg.sv:341-360 | replay the entry left, update and record the entry reached when the guard says so (and under `AsDocumented` update from it when it is replayed to), match it |
| Shadow.GdbShadow.Backward | hdl/gdb_shadow_pkg.sv:362-377 | revert the entry reached and match it; at position 0 revert nothing, leave the trace and match the default entry |
| Shadow.GdbShadow.PointInsert | hdl/gdb_shadow_pkg.sv:383-399 | the table of the type's family maps the address to the new point; returns the table size |
| Shadow.GdbShadow.PointRemove | hdl/gdb_shadow_pkg.sv:401-416 | the table of the type's family loses the address; returns the table size |
| Shadow.GdbShadow.BreakpointMatch | hdl/gdb_shadow_pkg.sv:422-449 | illegal instruction, then EBREAK, then hardware breakpoint decide signal and reason |
| Shadow.GdbShadow.WatchpointMatch | hdl/gdb_shadow_pkg.sv:451-470 | write, read and access watchpoints on the data address decide signal and reason |
| Stub.GdbServerStub.ForwardStep | hdl/gdb_server_stub_pkg.sv:995-1006 | one forward step of the machine, pulling from the DUT only at the end of the trace |
| Stub.GdbServerStub.BackwardStep | hdl/gdb_server_stub_pkg.sv:1099-1116 | one backward step, or SIGTRAP and no change at the beginning of history |
| Stub.GdbServerStub.ReverseContinue | hdl/gdb_server_stub_pkg.sv:1133-1155 | terminates; uninterrupted it is the run to the greatest earlier match; interrupted it has made exactly the backward steps between the two positions and skipped no match |
| Stub.GdbServerStub.Continue | hdl/gdb_server_stub_pkg.sv:1053-1089 | uninterrupted `c` is the run to the least later match; `C` with a signal makes one step; interrupted it has made exactly the forward steps between the two positions; no match is ever skipped |
| Stub.ReverseThenContinue | hdl/gdb_server_stub_pkg.sv:1070-1155 | the two loops in sequence restore the stub where time travel is exact |
| Hex.HexOfBytesOf | hdl/gdb_server_stub_pkg.sv:717-757 | text decoded to bytes and printed again is the text in lower case |
| Hex.DigitsAreUsual | hdl/gdb_server_stub_pkg.sv:717-757 | digits are printed as 0 to 9 and a to f and read in either case |
| Hex.SwappedParse | hdl/gdb_server_stub_pkg.sv:882-890 | parsing a field and swapping bytes stores its bytes least significant first |
| Hex.SwappedFormat | hdl/gdb_server_stub_pkg.sv:851-862 | swapping bytes and printing lists them least significant first |
| AccessPackets.WrittenBytesAreSeen | hdl/gdb_server_stub_pkg.sv:755-763 | after `M` each address of the range shows its byte and every other address what it showed, across blocks, overlaps, I/O and wrap-around |
| AccessPackets.SeenIsTheByte | hdl/gdb_server_stub_pkg.sv:708-720 | what an `m` packet sees at an address is the byte of its block, or the first byte of its I/O register, or 0 |
| AccessPackets.MemReplyDigits | hdl/gdb_server_stub_pkg.sv:708-720 | digit pair i of an `m` reply spells the byte seen at address + i modulo 2^32 |
| AccessPackets.MemWrittenDigits | hdl/gdb_server_stub_pkg.sv:754-763 | after `M` the byte seen at address + i is what digit pair i spells |
| AccessPackets.MemoryRoundTrip | hdl/gdb_server_stub_pkg.sv:687-769 | `m` after `M` replies with the written text in lower case |
| AccessPackets.RegistersRoundTrip | hdl/gdb_server_stub_pkg.sv:842-897 | `g` after `G` replies with the written text in lower case, for every register count and width |
| AccessPackets.WritingBackChangesNothing | hdl/gdb_server_stub_pkg.sv:842-897 | writing back a `g` reply leaves the shadow unchanged |
| AccessPackets.SetRegsGet | hdl/gdb_shadow_pkg.sv:186-217 | writing the first registers in turn sets exactly those, across the GPR/PC/CSR split |
| AccessPackets.RegAtIsField | hdl/gdb_shadow_pkg.sv:202-217 | register i is GPR i, then the PC at GPRN, then the CSRs |
| AccessPackets.SetRegsFields | hdl/gdb_shadow_pkg.sv:186-199 | values written in turn fill the GPRs, then the PC, then the CSRs, and nothing else |
| AccessPackets.RegReplyField | hdl/gdb_server_stub_pkg.sv:850-862 | field i of a `g` reply is the text of register i |
| AccessPackets.FieldTextSpells | hdl/gdb_server_stub_pkg.sv:850-862 | digit pair j of a register's text spells byte j of its value, least significant first |
| AccessPackets.RegsWrittenField | hdl/gdb_server_stub_pkg.sv:881-891 | after `G` register i has the value of field i |
| AccessPackets.FieldDigits | hdl/gdb_server_stub_pkg.sv:881-891 | byte j of a field's value is what its digit pair j spells |
| AccessServer.MemReadPacket | hdl/gdb_server_stub_pkg.sv:708-720 | the reply loop prints the bytes seen in the range |
| AccessServer.MemWritePacket | hdl/gdb_server_stub_pkg.sv:754-763 | the write loop stores each digit pair at its own address |
| AccessServer.RegReadAll | hdl/gdb_server_stub_pkg.sv:850-862 | the reply loop prints every register, least significant byte first |
| AccessServer.RegWriteAll | hdl/gdb_server_stub_pkg.sv:881-891 | the write loop sets every register from its field |
| AccessServer.PointPacket | hdl/gdb_server_stub_pkg.sv:983-986 | `Z` inserts, `z` removes, anything else does nothing |
| Framing.AcceptsIffChecksumMatches | src/rsp/Packet.cpp:41-69 | however a text is cut into reads, it is accepted if and only if its checksum field is the sum of its body modulo 256 |
| Framing.SumOfParts | src/rsp/Packet.cpp:76-76 | the checksum's sum starts at 0 and adds byte by byte: additive over concatenation, and of one byte the byte itself |
| Framing.FrameSpells | src/rsp/Packet.cpp:71-80 | a frame is `$`, the payload, `#` and two lower-case digits that spell the payload's sum modulo 256 |
| Framing.FramingRoundTrip | src/rsp/Packet.cpp:41-87 | a payload without `#` is received as sent, in any chunking |
| Framing.SubstitutionIsRejected | src/rsp/Packet.cpp:50-67 | changing any one payload byte gets the frame rejected, in any chunking |
| Framing.StopsOnlyAtTheEnd | src/rsp/Packet.cpp:44-47 | reading stops exactly at the end of the frame |
| Framing.Packet.Rx | src/rsp/Packet.cpp:41-69 | the receive loop stops at the first read that ends a frame, judges that frame and sends ACK or NACK |
| Framing.Packet.Tx | src/rsp/Packet.cpp:71-95 | for every sequence of partial sends the wire carries exactly the frame; a NACK makes the call fail |

## Left out

- Framing.Packet.Rx: requires at least three bytes in the first read and at most 512 in all, because the source indexes outside its buffer otherwise.
- Shadow.GdbShadow.MemRead: requires a read that starts in a block to stay inside it, because the source slices past the end of the block otherwise.
- Shadow.GdbShadow.MemWrite: requires a write that starts in a block to stay inside it, for the same reason.
- Shadow.GdbShadow.Forward: requires an entry to move to, which its only caller guarantees; the source would index its trace out of range otherwise.
- Shadow.GdbShadow.Backward: requires a position inside the trace, which its only caller guarantees.
- AccessServer.MemWritePacket: requires as many digit pairs as the length field says; what `$sscanf` does to malformed or short data is not modelled.
- AccessServer.RegWriteAll: requires one full field of digits per register; what `$sscanf` does to malformed or short data is not modelled.
- AccessServer.RegReadAll: requires registers to hold values of the packet's width, which the source's types guarantee.
- Sockets, `recv`/`send`, DPI code and polling: reads are a list of nonempty chunks, sends any positive counts.
- DUT, clocking, reset, jump addresses and the NERV adapter: the DUT is an arbitrary list of well-formed entries.
- Register indices that do not exist in retired instructions: `WellFormed` excludes them, because the source does not check them.
- Debugger writes to registers and memory during time travel: runs consist of forward and backward steps only.
- Packets handled inside a continue loop: only Ctrl+C is polled there.
- Packet headers (address, length, type fields read with `$sscanf`), DUT-side register and memory access, and the single-register packets `p` and `P`.
- Four-state values: registers are two-state; unknown initial registers are unspecified numbers.
- Query, verbose, monitor, thread, stop-reply and error texts, extended mode, detach, kill, logging and waveforms: string formatting with easy properties.
- The SystemVerilog `rsp_get_packet` and the disabled binary packets `x` and `X`.
- The C++ `Protocol`, `System`, `Core`, `MemoryMap`, `Registers` and `Points`: unfinished ports of what is modelled here.
- Position and address overflow: the position is an integer starting at -1 where the source has an unsigned counter that wraps, so traces of 2^32 entries are not covered.
