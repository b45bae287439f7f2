# Verification model of usim-cs

This project models the parts of `usim-cs`, an emulator of the MIT CADR Lisp machine, whose correctness its own
code decides, and proves what those parts are for. To verify: `dafny verify dfyconfig.toml`.

Every part has two layers. A module of datatypes and functions says what one operation does to the whole state of the
device. A class with the device's fields and arrays carries out the operation step by step, with the source's loops,
and each method is proved to have exactly that effect. The properties are lemmas about the functions, so they hold of
every run of the objects.

- **Microcode processor.** `Words` (32-bit words and their bits), `Arithmetic` (the ALU), `Multiply` and `Divide` (the
  iterated steps), `Microcode` (the machine as a value), `UCodeMachine` (the machine as an object), `PipelineTheory`,
  `Transfers`, `ReturnStack` and `MemoryTiming` (what the pipeline, the return ring, delayed loads and the location
  counter amount to), `Microprograms` (multiplication and division as programs in control memory), `ByteFields` (byte
  instructions and what the disassembler prints for them), `Instructions` (whole instructions, from their words and
  operands to what they leave), `Returns` (which instructions advance the location counter).
- **Bus.** `PhysicalMemory`, `Dma` (halfword transfers through the Unibus map), `MapWindow` (the map by numbers) and
  `Bus` (the objects).
- **Tape.** `TapeModel` and `Tape` (the drive), `TapeCommands` (the commands), `TapeTheory` (spacing), `TapeTransfer`
  (records through the map), `TapeControl` (the controller), `TapeSession` (commands in sequence),
  `TapeFiles` (command words, and files written and found).
- **Disk.** `DiskModel` and `DiskTransfer` (a drive, and transfers driven by command words in memory), `DiskControl` (the
  commands), `DiskSession` (commands through the registers), `Disks` (the objects).
- **Displays and keyboard.** `DisplayModel`, `Screens` (what a run leaves on the screen) and `Displays`; `KeyboardModel`,
  `KeyboardRuns` (which keys are accepted, delivered and dropped) and `Keyboards`.

## How the model reads

- Words are integers with explicit wrap-around. The ALU operands, signed in the source, are kept as words and read
  with `Signed` where the source compares or widens them.
- What a class changes together is grouped in one field of a record type (the pipeline registers, the memory port, the
  status bits of a controller); the records are replaced whole.
- The interrupts pending when a jump looks at them are an answer of `Env` for that cycle; a device write comes after any
  such look, so what it does to them is in the answers of later cycles.
- The world outside a part is an argument: `Env` answers memory reads, the address map and interrupts for one
  microcycle; `Devices` answers accesses to device registers; a clock is a function from the number of a reading to
  its value. The answers are arbitrary, so the theorems hold for all of them.
- An exception of the source is `None`, or a result `ok` that is false.
- Where the code is not what its reader would expect, the theorem gives the exact condition: the carries of codes 16, 22
  and 28; code 9; deposits past bit 31; the look ahead after the last record before the end of a tape image; the attention
  interrupt of the disk; visible pixels beyond the last whole word of the monochrome screen, which takes another screen
  size than the two the emulator sets up.

## Model

| member | source | states |
|---|---|---|
| Arithmetic.Add32IsExact | usim-cs/UCode.cs:930-936 | the comparison form of the carry is the sign bit of the true 33-bit signed sum, for every pair of operands and carry-in |
| Arithmetic.Sub32IsDifference | usim-cs/UCode.cs:945-950 | the subtracter's word is the difference modulo 2^32, and its carry is set exactly when something nonzero was subtracted without borrow |
| Arithmetic.Abs32IsMagnitude | usim-cs/UCode.cs:955-955 | the absolute value is the magnitude for every word except the most negative one, which maps to itself |
| Arithmetic.RolBit | usim-cs/UCode.cs:960-966 | the shift-and-mask form of the rotation moves every bit to its place modulo 32 |
| Arithmetic.RotationsCompose | usim-cs/UCode.cs:960-966 | two rotations are one rotation by the sum of the counts modulo 32 |
| Arithmetic.LogicalCodesAreTruthTables | usim-cs/UCode.cs:971-992 | every logical code but 9, read as a four-bit truth table, is the operation it performs on each bit |
| Arithmetic.EqvIsTruthTableIff | usim-cs/UCode.cs:984-984 | code 9 is a whole-word equality test: it agrees with its truth table exactly when the operands are complementary |
| Arithmetic.ArithIsExact | usim-cs/UCode.cs:997-1058 | for codes 17-21, 23-27 and 29-31 the output minus 2^32 times the carry is the signed expression the code names, with carry-in |
| Arithmetic.ArithWordIsExact | usim-cs/UCode.cs:997-1058 | for every arithmetic code the output word is its expression modulo 2^32 |
| Arithmetic.SpecialCarriesAreExactIff | usim-cs/UCode.cs:1004-1042 | exactly when the special carries of codes 16 and 28 are the sign of the result too |
| Arithmetic.SubtractCarryIsTheSignIff | usim-cs/UCode.cs:1020-1022 | exactly when the carry of code 22 is the sign of the difference: operands of different sign, or nothing subtracted from a number that is not negative |
| Multiply.MultiplyStepValue | usim-cs/UCode.cs:1070-1080 | one multiply step with output select 2 and Q control 2: twice the new 64-bit pair is the old one plus A times the bit of Q shifted out, exactly |
| Multiply.MultiplyRunValue | usim-cs/UCode.cs:1070-1080 | the same for k steps: the invariant of the multiply loop |
| Multiply.MultiplyIsExact | usim-cs/UCode.cs:1070-1080 | thirty-two multiply steps leave signed(M)*2^32 + Q = signed(A)*Q0 + signed(M0), for every A, Q0 and M0, without overflow |
| Divide.DivideStepValue | usim-cs/UCode.cs:1081-1086 | one divide step keeps the partial remainder in [-D, D) and appends one correct quotient bit |
| Divide.DivideRunValue | usim-cs/UCode.cs:1064-1118 | any number of divide steps is that much of a long division of the 64-bit dividend |
| Divide.RemainderIsCorrected | usim-cs/UCode.cs:1087-1112 | the correction code 37 turns the last partial remainder into the remainder, through its comparison with the sum it has just stored |
| Divide.DivisionIsExact | usim-cs/UCode.cs:1064-1164 | initial step, thirty-two divide steps and correction leave quotient and remainder of M:Q by the magnitude of A, for every divisor but 0 and -2^31 and every M below it |
| Microprograms.StepPerforms | usim-cs/UCode.cs:225-275 | a microcycle whose word encodes one of these ALU steps applies that step to the A, M and Q registers and changes no other operand |
| Microprograms.MultiplyProgram | usim-cs/UCode.cs:225-275 | thirty-two multiply instructions in control memory, run through the microcycle, multiply exactly |
| Microprograms.DivideProgram | usim-cs/UCode.cs:225-275 | the thirty-four instructions of a division, run through the microcycle, divide exactly |
| UCodeMachine.UCode.Step | usim-cs/UCode.cs:225-275 | one microcycle of the machine in place has the effect of Microcode.Step on its whole state, so what is proved of runs holds of the object |
| Instructions.FieldsOfTheWord | usim-cs/UCode.cs:135-135 | every field of the instruction word is that many bits from its own position |
| Instructions.ConditionIs | usim-cs/UCode.cs:513-532 | the sense of a jump is one bit of M at the rotated place, or one of seven conditions written out on M, A, VMA-OK, the pending interrupt and bits 26 and 27 of the control word; other codes throw |
| Instructions.JumpTakenIff | usim-cs/UCode.cs:541-582 | a jump that is no control store is taken exactly when that condition on the operands it latched differs from its invert bit |
| Instructions.PlainJump | usim-cs/UCode.cs:541-582 | through a whole cycle, the next fetch is at the target exactly then, with the next word annulled if N is set, and otherwise at the successor |
| Instructions.IllopHalts | usim-cs/UCode.cs:541-556 | a jump-class instruction halts the machine exactly when its miscellaneous function is 1, and goes on all the same |
| Instructions.FunctionalOperand | usim-cs/UCode.cs:250-256 | an instruction that names a functional source takes M from it, with what reading it changes, or throws if there is none |
| Instructions.AluInstruction | usim-cs/UCode.cs:491-504 | a whole ALU instruction on M and A memory: what the ALU computes by each code, the multiply and divide steps included, how Q and the output bus are shifted, and where the result goes |
| Instructions.ByteInstruction | usim-cs/UCode.cs:673-697 | a whole byte instruction: every bit of its result as a bit of M or of A, and where it goes |
| Instructions.ControlStore | usim-cs/UCode.cs:558-562 | a jump with P and R stores the low half of A over all of M at its target in control memory |
| Instructions.DispatchStore | usim-cs/UCode.cs:599-653 | a dispatch with miscellaneous function 2 stores A in dispatch memory and changes no other memory |
| Instructions.MapBits | usim-cs/UCode.cs:599-653 | the dispatch address is completed by bit 18 or bit 19 of the second map level, each on its own request |
| Instructions.OaModifies | usim-cs/UCode.cs:245-246 | each bit of the instruction executed: that of the prefetched word, or of the low 26 or high 22 bits that the OA registers held |
| Instructions.OaStores | usim-cs/UCode.cs:398-489 | what a store puts into an OA register, for the next instruction only |
| Instructions.OaIsSpent | usim-cs/UCode.cs:245-246 | an executed instruction uses both OA registers up |
| Instructions.RegistersReadBack | usim-cs/UCode.cs:341-489 | VMA, MD and the two pushdown registers are read back by their own sources; Q, the old PC and the dispatch constant have sources of their own |
| Instructions.PdlReadsBack | usim-cs/UCode.cs:341-489 | a push on the pushdown list is undone by a pop, and stores through the pointer and the index are read back through them |
| Instructions.SpcReadsBack | usim-cs/UCode.cs:341-489 | the return ring is read with its pointer, with and without a pop |
| Instructions.LcReadsBack | usim-cs/UCode.cs:341-489 | LC is read back as it was loaded, without bit 0 outside byte mode, and asking for a fetch |
| Instructions.ControlIsStored | usim-cs/UCode.cs:398-489 | the interrupt control register keeps its word and lends bits 26 to 29 to LC, whose other bits stay |
| Instructions.MemoryCycles | usim-cs/UCode.cs:398-489 | the four destinations that start memory cycles: which address they use, and what becomes of VMA-OK |
| Instructions.MapSource | usim-cs/UCode.cs:341-381 | the map source shows both map levels, and each missing permission on its own bit |
| Instructions.SourcesExist | usim-cs/UCode.cs:341-381 | which functional sources exist; any other throws |
| Instructions.OthersStoreNothing | usim-cs/UCode.cs:398-489 | which functional destinations exist; a store into any other does nothing |
| Returns.PlainReturn | usim-cs/UCode.cs:322-333 | a return through a word of the ring without bit 14 goes to its low fourteen bits and only pops |
| Returns.ReturnAdvances | usim-cs/UCode.cs:296-320 | with bit 14 it advances LC by a halfword or a byte, fetches exactly when LC asked for it, and otherwise sets bit 1 of the address |
| Returns.JumpReturns | usim-cs/UCode.cs:569-580 | a taken jump returns in that way exactly when its R bit is set, and otherwise leaves LC alone |
| Returns.DispatchReturns | usim-cs/UCode.cs:599-653 | so does a taken dispatch by the R bit of its word, after advancing LC if bit 24 of the instruction asks for it |
| Returns.PopjReturns | usim-cs/UCode.cs:262-272 | so does an instruction whose POPJ is still pending when it ends |
| PipelineTheory.StepKeepsPrefetchIff | usim-cs/UCode.cs:209-275 | a cycle keeps the word it has prefetched exactly when it neither stores a different word at that address of the control memory in use, nor turns the PROM switch where the two stores differ: conditions on the state before it |
| PipelineTheory.MemoryWriteKeepsPrefetch | usim-cs/UCode.cs:736-772 | in particular a cycle that writes main memory, or a device that leaves the PROM switch alone, keeps it |
| PipelineTheory.StepRefines | usim-cs/UCode.cs:209-275 | one microcycle is one step of a machine that has no prefetch register and reads each word when it executes it, and leaves the right word prefetched under exactly that condition |
| PipelineTheory.StaleWordIsExecuted | usim-cs/UCode.cs:209-220 | otherwise the two machines execute different words in the next cycle |
| PipelineTheory.StoreIntoNextWordIsStale | usim-cs/UCode.cs:540-582 | a machine that does so: a control-memory store into the very next word |
| PipelineTheory.RunRefines | usim-cs/UCode.cs:209-275 | every run in which no cycle replaces its prefetched word is a run of the machine without prefetch, state by state |
| Transfers.JumpStep | usim-cs/UCode.cs:540-582 | a taken jump: where the next fetch goes, what is annulled and what is pushed |
| Transfers.AnnulledStep | usim-cs/UCode.cs:225-275 | an annulled slot only counts the delayed load down and moves the pipeline on |
| Transfers.JumpSequence | usim-cs/UCode.cs:225-275 | a taken jump from a to t executes a, a+1, t with n clear, and a, t with n set |
| Transfers.DispatchStep | usim-cs/UCode.cs:599-653 | a taken dispatch: where the next fetch goes, what is annulled, pushed and popped |
| Transfers.CallPushes | usim-cs/UCode.cs:540-653 | a call by jump or dispatch leaves on the ring the address after its delay slot, of its annulled slot, or of the dispatch itself when it pushes its own address |
| Transfers.PopjInstructionReturns | usim-cs/UCode.cs:262-272 | an ALU or byte instruction with POPJ that does not itself use the ring is a return |
| Transfers.CallResumes | usim-cs/UCode.cs:225-275 | whatever runs between a call, by jump or dispatch, and a return, by jump, dispatch or POPJ, if it pushes and pops in balance and nests at most 31 deep, the return resumes where the call asked |
| ReturnStack.RingRefinesStack | usim-cs/UCode.cs:322-333 | the 32-word ring does what a bounded stack does, above any addresses already on it |
| ReturnStack.BalancedKeepsTop | usim-cs/UCode.cs:322-333 | balanced pushes and pops, at most 31 deep, leave the address below them on top |
| ReturnStack.ThirtyTwoNestedPushesOverwrite | usim-cs/UCode.cs:322-333 | the bound is exact: thirty-two pushes more lose the address |
| ReturnStack.StepRing | usim-cs/UCode.cs:225-275 | a microcycle applies to the ring the pushes and pops computed from its operand latch, its instruction and its popj, in that order |
| ReturnStack.RunRing | usim-cs/UCode.cs:225-275 | so a run applies their concatenation |
| MemoryTiming.StepReads | usim-cs/UCode.cs:231-242 | a cycle either counts the delayed load down or starts a read of the address it leaves in VMA |
| MemoryTiming.DelayedLoad | usim-cs/UCode.cs:231-242 | a read started in one cycle is in MD when the second following instruction executes and not before, annulled or not, unless a later read replaces it |
| MemoryTiming.DelayBounded | usim-cs/UCode.cs:231-242 | the delay counter never exceeds two in any run |
| MemoryTiming.LoadLcSets | usim-cs/UCode.cs:405-412 | loading LC sets the address and asks for a fetch |
| MemoryTiming.AdvanceLcStep | usim-cs/UCode.cs:296-320 | an advance fetches exactly when asked, forces bit 1 exactly when it does not, and marks exactly the word boundaries |
| MemoryTiming.LcFetchesEachWordOnce | usim-cs/UCode.cs:296-320 | after a load of LC, any number of advances fetches the consecutive words, each once and in order |
| ByteFields.DpbBit | usim-cs/UCode.cs:663-697 | each bit of a deposit is a bit of M inside the field and of A outside |
| ByteFields.LdbBit | usim-cs/UCode.cs:663-697 | each bit of a load is a bit of the rotated M below the length and of A above |
| ByteFields.DpbDeposits | usim-cs/UCode.cs:663-697 | a deposit that fits puts the low bits of M in the field and leaves the rest of A |
| ByteFields.DpbDepositsIff | usim-cs/UCode.cs:663-697 | a deposit instruction deposits, whatever the operands, exactly when its field ends at or below bit 31; past that its mask is empty |
| ByteFields.LdbExtracts | usim-cs/UCode.cs:663-697 | a load gives the field of M it is meant to |
| ByteFields.DepositThenLoad | usim-cs/UCode.cs:663-697 | loading back a deposited byte gives the low bits of the source |
| ByteFields.ByteDisassemblyIsTruthful | usim-cs/Disassembler.cs:107-128 | the length and position printed for LDB, DPB and selective deposit are the field that the instruction moves |
| ByteFields.DispatchDisassemblyIsTruthful | usim-cs/Disassembler.cs:449-449 | the length and position printed for DISPATCH are the field of M that is ORed into the dispatch address, beside the map bit of a map dispatch |
| ByteFields.LcTurnsByBytes | usim-cs/UCode.cs:277-287 | in byte mode LC turns the rotation by whole bytes, back for a load and forward for a deposit |
| ByteFields.LcTurnsByHalfwords | usim-cs/UCode.cs:288-293 | outside byte mode it turns it by a halfword |
| ByteFields.LcLoadsItsByte | usim-cs/UCode.cs:277-287 | so an eight-bit load with base 0 loads the byte of M that LC names |
| ByteFields.LcDepositsTheByteBefore | usim-cs/UCode.cs:277-287 | and an eight-bit deposit with base 24 replaces the byte before it and nothing else |
| PhysicalMemory.PageAfterWrite | usim-cs/MainMemory.cs:132-157 | a page written is read back, and no other page changes |
| Bus.BusAdaptor.WriteUnibus | usim-cs/BusAdaptor.cs:458-507 | a Unibus write in place: the new state of memory, map, MD and error bits, and of the PROM switch, which only the diagnostic registers can turn |
| Dma.AccessIntegrity | usim-cs/BusAdaptor.cs:271-367 | a mapped access changes memory only on a permitted high-half write, and then by one whole word: high half plus the buffered low half |
| Dma.RunKeepsMap | usim-cs/BusAdaptor.cs:271-367 | no run of accesses to the window changes a mapping register |
| Dma.RunLeavesOtherWords | usim-cs/BusAdaptor.cs:271-367 | a word that no access of a run stores to is unchanged |
| Dma.RunLeavesBuffer | usim-cs/UnibusMapping.cs:21-23 | the buffer of a map page is unchanged by a run without low-half accesses to that page |
| Dma.ReadPairIsASnapshot | usim-cs/BusAdaptor.cs:271-308 | a low read and a later high read return the two halves of one word as it was at the low read, whatever happens between except a low access to that map page |
| Dma.WritePairStoresTheWord | usim-cs/BusAdaptor.cs:311-367 | a low write and a later high write store exactly that word |
| MapWindow.ReadsOfTheWindow | usim-cs/BusAdaptor.cs:271-308 | a read of half h of word w in page p of the window, by numbers: bit 15 of the mapping register, its 14 page bits, the word of memory, the buffer, and MD from page 3E00 on |
| MapWindow.WritesOfTheWindow | usim-cs/BusAdaptor.cs:311-367 | a write there: bits 15 and 14, the buffered low half, the stored word, and the halves of MD |
| MapWindow.WindowIsCovered | usim-cs/BusAdaptor.cs:271-277 | every address of the window is such a page, word and half |
| MapWindow.XbusGaps | usim-cs/BusAdaptor.cs:375-408 | which pages of the Xbus are memory, which are devices, and that the others report a missing address |
| MapWindow.RegistersReadBack | usim-cs/UnibusMapping.cs:35-60 | the sixteen mapping registers, by address, read back what was stored and keep the others |
| MapWindow.OthersDoNotAnswer | usim-cs/BusAdaptor.cs:411-507 | every address outside the listed ranges reads as zero and changes only the error bit, unless it is inhibited |
| MapWindow.DevicesAnswer | usim-cs/BusAdaptor.cs:411-456 | the addresses of devices and of mapping registers never report a missing address themselves |
| Tape.TapeDrive.constructor | usim-cs/TapeDrive.cs:47-89 | a mounted image is on line only if it is long enough |
| Tape.TapeDrive.Seek | usim-cs/TapeDrive.cs:99-106 | a seek clamps to the image and recomputes both end flags |
| Tape.TapeDrive.ReadUInt32 | usim-cs/TapeDrive.cs:150-159 | the little-endian number of the bytes it got, and success exactly when there were four |
| Tape.TapeDrive.WriteUInt32 | usim-cs/TapeDrive.cs:161-168 | as many of the four bytes as fit, in order |
| TapeModel.LittleBytes4 | usim-cs/TapeDrive.cs:150-168 | the bytes written for a word denote that word |
| TapeCommands.ConfiguredIsMounted | usim-cs/TapeDrive.cs:66-72 | the size check of Configure is enough, at either density, for every spacing loop to end |
| TapeCommands.ForwardProgress | usim-cs/TapeController.cs:502-529 | one record forward moves on, or finds a file mark, or ends beyond the end-of-tape point, on any bytes: the measure by which spacing forward ends, length wrap and clamped seeks included |
| TapeCommands.ReverseProgress | usim-cs/TapeController.cs:563-586 | one record back moves back, or stops at a mark, or reaches the beginning, on any bytes |
| TapeTheory.ForwardOverRecord | usim-cs/TapeController.cs:502-529 | over a well-formed record, and over a file mark after it |
| TapeTheory.ReverseOverRecord | usim-cs/TapeController.cs:563-586 | back to the start of the record that ends at the head |
| TapeTheory.ForwardOverRun | usim-cs/TapeController.cs:534-554 | space forward with count -n passes exactly the n records of a run |
| TapeTheory.ReverseOverRun | usim-cs/TapeController.cs:590-621 | spacing back over n records ends at the start of the run |
| TapeTheory.SpacingInverse | usim-cs/TapeController.cs:502-621 | space forward by n records and space reverse by n records return to the same position, the last record perhaps followed by a file mark |
| TapeTheory.ForwardOverFile | usim-cs/TapeController.cs:534-544 | space forward with count zero passes the records of a file and the mark that ends it |
| TapeTheory.ReverseOverFile | usim-cs/TapeController.cs:590-606 | spacing back stops at the mark before the file, with EOF, or at the beginning of the tape |
| TapeTheory.FileSpacingInverse | usim-cs/TapeController.cs:534-606 | with count zero, forward and back over a file return to its start |
| TapeTransfer.WriteRecordWritesFrame | usim-cs/TapeController.cs:408-482 | a write command puts exactly the framed words of the mapped range under the head, and changes no memory |
| TapeTransfer.ReadRecordReadsFrame | usim-cs/TapeController.cs:316-398 | a read command stores exactly the words of the record through the map, changes no tape, and ends after the record or after a following file mark with EOF set, or too far back when the image ends less than four bytes further |
| TapeTransfer.ReadEndsAfterRecordIff | usim-cs/TapeController.cs:375-389 | a read ends after its record exactly when four more bytes of tape follow; after a record that fills the image the tape stands four bytes before its end |
| TapeTransfer.WriteStopsAtInvalidPage | usim-cs/TapeController.cs:443-478 | a write that comes to an invalid mapping register leaves the words before it on the tape, NXM set, and the failing address and the count left in their registers |
| TapeTransfer.ReadStopsAtUnwritablePage | usim-cs/TapeController.cs:332-372 | a read that comes to a page it may not write has stored exactly the words before it, with NXM set and the failing address in its register |
| TapeTransfer.ShortReadIsFlagged | usim-cs/TapeController.cs:332-379 | a count shorter than the record stores that many words, sets RLE, and leaves the tape inside the record |
| TapeTransfer.StoredAt | usim-cs/BusAdaptor.cs:311-367 | through distinct pages every stored word is found where it was put |
| TapeTransfer.RoundTrip | usim-cs/TapeController.cs:316-482 | a record written from one mapped range and read with the same count into another, whose own pages are distinct, restores every word, and changes no other word of memory and no other byte of tape |
| TapeTransfer.MapsExist | usim-cs/UnibusMapping.cs:13-60 | the conditions of the round trip can be met over the whole map window, and over one page with every other register as after reset |
| TapeSession.SessionCopiesMemory | usim-cs/TapeController.cs:266-300 | write command, space reverse by one, read command: the words of the first range are copied to the second, and nothing else in memory changes |
| TapeFiles.OfflineIsIllegal | usim-cs/TapeController.cs:266-276 | any command word to a drive that is off line sets ILC and does nothing else |
| TapeFiles.EofIsWritten | usim-cs/TapeController.cs:485-497 | WRITE EOF, as a command word, puts FF FF FF FF under the head, moves past it and sets EOF; no other byte and nothing on the bus changes |
| TapeFiles.ProtectedIsIllegal | usim-cs/TapeController.cs:408-497 | a write command to a protected tape sets ILC and changes neither tape nor bus |
| TapeFiles.RewindGoesToStart | usim-cs/TapeController.cs:303-641 | the two rewinding commands go to the beginning, one of them taking the drive off line, and neither leaves EOT set |
| TapeFiles.WriteIsRefusedIff | usim-cs/TapeController.cs:408-434 | a write record is refused exactly for a protected tape or a count below four or not of whole words, and then changes nothing |
| TapeFiles.MarkIsReadAsEof | usim-cs/TapeController.cs:316-330 | a read command with the head on a file mark, by its bytes, moves past it and sets EOF, and transfers nothing |
| TapeFiles.OtherCommandWords | usim-cs/TapeController.cs:219-262 | power clear, a command word without GO, and a GO while another command runs |
| TapeFiles.RecordIsAppended | usim-cs/TapeController.cs:408-482 | a write command behind the records of a file leaves one record more: the words of memory between two copies of their length, byte by byte, and no other byte changed |
| TapeFiles.BackToStart | usim-cs/TapeController.cs:590-621 | space reverse with count zero, as a command word, goes from behind the mark of a file to its first record |
| TapeFiles.ForwardToEnd | usim-cs/TapeController.cs:534-544 | space forward with count zero goes from there to just behind the mark, with EOF |
| TapeFiles.FileIsFound | usim-cs/TapeController.cs:219-300 | four command words: write a record, write EOF, space reverse, space forward; the third ends at the start of the file, the fourth just behind the mark with EOF, over the words of memory and then the mark |
| TapeControl.CommandWordRoundTrip | usim-cs/TapeController.cs:198-240 | writing back what MTC reads selects the same command, drive and address extension, and starts nothing |
| TapeControl.StatusBits | usim-cs/TapeController.cs:171-191 | every condition is read off its own bit of the status word, and no other bit is ever set |
| TapeControl.CountRoundTrip | usim-cs/TapeController.cs:655-676 | the count register reads back what was written |
| TapeControl.CommandSafety | usim-cs/TapeController.cs:266-300 | no command leaves the tape out of range, changes its length, writes a protected tape, or writes at all unless it is a write command; only transfers touch the bus |
| TapeControl.ReadRecordKeepsTape | usim-cs/TapeController.cs:316-398 | a read changes only the position |
| TapeControl.SpacingKeepsTape | usim-cs/TapeController.cs:534-621 | spacing changes only the position, whatever is on the tape |
| TapeControl.WriteRecordAlike | usim-cs/TapeController.cs:408-482 | a write keeps the length of the tape and, on a protected drive, its bytes |
| TapeControl.TapeController.SpaceForward | usim-cs/TapeController.cs:534-554 | ends, with the specified effect |
| TapeControl.TapeController.SpaceReverse | usim-cs/TapeController.cs:590-621 | ends, with the specified effect |
| TapeControl.TapeController.Read | usim-cs/TapeController.cs:316-398 | the transfer from tape to memory, on drive, bus and registers together |
| TapeControl.TapeController.WriteCommand | usim-cs/TapeController.cs:408-482 | the transfer from memory to tape |
| TapeControl.TapeController.Go | usim-cs/TapeController.cs:266-300 | dispatch of the eight commands after clearing the error bits and setting the density |
| TapeControl.TapeController.UpdateMtc | usim-cs/TapeController.cs:219-262 | the whole new state after a store into the command register, and that no other drive changes |
| TapeControl.TapeController.ReadRegister | usim-cs/TapeController.cs:649-662 | what each register tells its reader: the conditions by bit, the command that would be selected again, the count and address in force; and which offsets do not exist |
| TapeControl.TapeController.WriteRegister | usim-cs/TapeController.cs:670-681 | every register that can be written, a store into the command register included: the whole new state, and that no other drive changes |
| DiskModel.LbaIsOneToOne | usim-cs/DiskUnit.cs:167-183 | positions and block numbers of a disk correspond one to one |
| DiskModel.SeekNextIsSuccessor | usim-cs/DiskUnit.cs:186-202 | the mixed-radix counter is the exact successor of the block number, or a seek error with the position unchanged at the last block and only there |
| DiskModel.SeekKeepsValid | usim-cs/DiskUnit.cs:167-183 | a seek succeeds exactly for positions on the disk, and the block number always agrees with the position |
| DiskModel.DaRoundTrip | usim-cs/DiskController.cs:139-145 | the disk address a drive reports decodes to its unit and position |
| DiskTransfer.TransferStep | usim-cs/DiskController.cs:158-241 | one command word of the chain: what moves, and the transfer from the next word on |
| DiskTransfer.TransferFails | usim-cs/DiskController.cs:158-241 | a missing command word or page stops the transfer with nothing more moved |
| DiskTransfer.TransferEnds | usim-cs/DiskController.cs:149-242 | every transfer ends on track after at most the blocks left on the disk, whatever memory holds and even if it overwrites its own list; it never faults, and fails only for missing memory or the end of the disk |
| DiskTransfer.TransferStatus | usim-cs/DiskController.cs:149-242 | of the status a transfer changes only its own error bits, the comparison only in a read-compare, and the cycle bit stays set only where a command word was missing |
| DiskTransfer.WriteMovesTrace | usim-cs/DiskController.cs:215-232 | a write has moved exactly the pages of the command words it obeyed, to consecutive blocks, and no memory changed, also when it failed part way |
| DiskTransfer.ReadMovesTrace | usim-cs/DiskController.cs:173-214 | a read has moved exactly that many consecutive blocks to those pages, and no block changed, also when it failed part way |
| DiskTransfer.CompareFindsDifference | usim-cs/DiskController.cs:177-194 | a read-compare changes nothing and reports a difference exactly if a page obeyed differs from its block |
| DiskTransfer.TraceOfChain | usim-cs/DiskController.cs:149-242 | a transfer obeys a chain of k pages to its end if the disk has room and, for a read, no page overwrites the list |
| DiskTransfer.LoadedPages | usim-cs/MainMemory.cs:147-157 | blocks loaded into distinct pages are found there |
| DiskTransfer.ChainsExist | usim-cs/DiskController.cs:158-241 | the conditions of the round trip can be met |
| DiskTransfer.ChainRoundTrip | usim-cs/DiskController.cs:149-242 | a chain written and read back through another chain restores the pages, and changes no other page or block |
| DiskTransfer.ChainIff | usim-cs/DiskController.cs:158-241 | a list is a chain exactly when word i, for each i, is in populated memory, names page i in bits 8 to 21, and has bit 0 set unless it is the last |
| DiskControl.WriteThenReadRestores | usim-cs/DiskController.cs:252-270 | the same through the write and read commands and the disk address register, which is left at the last block of the chain |
| DiskSession.AddressIsDecoded | usim-cs/DiskController.cs:139-145 | the disk address with unit, cylinder, head and block in their own bits selects that block of the drive |
| DiskSession.IssueStarts | usim-cs/DiskController.cs:400-436 | four register stores, list pointer, disk address, command and start, start that command with those registers |
| DiskSession.CommandEnables | usim-cs/DiskController.cs:411-416 | the interrupt enables in bits 11 and 10 of the command, and that a command with neither takes the request away |
| DiskSession.AtEaseDoes | usim-cs/DiskController.cs:300-368 | command 5 drops attention, and with bit 8 or 9 clears the fault or recalibrates |
| DiskSession.SeekGoes | usim-cs/DiskController.cs:289-298 | a seek command goes to the position in the disk address, or sets the seek error where there is none, and raises attention |
| DiskSession.CommandFinishes | usim-cs/DiskController.cs:81-87 | every command that runs ends with the controller not active, and a request, at the controller and the bus, exactly if there was one or the done interrupt is enabled |
| DiskSession.CommandsRefused | usim-cs/DiskController.cs:275-368 | a write to a protected drive is a fault and nothing else, a drive off line ignores commands, and which commands stop the emulator |
| DiskSession.ResetClears | usim-cs/DiskController.cs:90-107 | what a reset command leaves of registers and status, and how it is taken back |
| DiskSession.SessionRestores | usim-cs/DiskController.cs:400-436 | write and read commands issued through the registers, with lists given word by word: every word of the pages goes to the blocks from the address on and comes back into the pages of the second list, and no other word or block changes |
| DiskSession.CompareReports | usim-cs/DiskController.cs:177-194 | a read-compare command over a list given word by word reports a difference exactly when some word differs from its block, and changes nothing |
| DiskControl.SubmitStartsAt | usim-cs/DiskController.cs:252-270 | a transfer starts at the block the disk address names; a bad address is a seek error and nothing moves |
| DiskControl.CommandSafety | usim-cs/DiskController.cs:340-368 | no command takes a drive off its track; only a write to a writable pack changes blocks, only a read changes memory, and the only fault is a write to a protected drive |
| DiskControl.AttentionNeverInterrupts | usim-cs/DiskController.cs:289-310 | seek and recalibrate raise attention but never its interrupt, because the controller is active when it looks |
| DiskControl.ResetHolds | usim-cs/DiskController.cs:400-436 | in reset only the two special commands have an effect |
| Disks.DiskController.PerformXfer | usim-cs/DiskController.cs:149-242 | the loop ends and has the specified effect on memory, drive and status |
| Disks.DiskController.BuffersEqual | usim-cs/DiskController.cs:244-248 | equality of two buffers |
| Disks.DiskController.Start | usim-cs/DiskController.cs:340-368 | dispatch of the commands, and where the emulator stops |
| Disks.DiskController.Write | usim-cs/DiskController.cs:400-436 | the register protocol with the reset condition, and that no other drive changes |
| DisplayModel.ScreenWriteKeeps | usim-cs/Tv.cs:65-81 | a screen write keeps the frame buffer coherent |
| DisplayModel.WriteModeKeeps | usim-cs/Tv.cs:119-144 | so does a mode write, by its repaint |
| DisplayModel.ResetIsCoherent | usim-cs/Tv.cs:47-54 | a reset makes every pixel right |
| DisplayModel.RepaintAt | usim-cs/Tv.cs:137-141 | which bytes the repaint loop has brought up to date, and to what |
| DisplayModel.RunKeepsCoherent | usim-cs/Tv.cs:47-81 | after any run of screen writes, mode writes, ticks and resets, every pixel of every whole word on screen shows its bit in the current mode |
| DisplayModel.AllPixelsShowIff | usim-cs/Tv.cs:134-142 | every visible pixel is right after every run exactly when their number is a multiple of 32 |
| DisplayModel.StandardScreensShow | usim-cs/Program.cs:490-505 | which it is for both screens the emulator sets up, 768 pixels wide |
| Screens.WordsAreLast | usim-cs/Tv.cs:47-144 | over every run from power-on a screen word is the value last stored in it since the last reset, the mode the one last stored but for its flag in bit 4, and an interrupt or a missing address was reported exactly when the events called for it |
| Screens.PixelsShowLastWords | usim-cs/Tv.cs:47-144 | so each pixel of a whole word on screen is white exactly when its bit of the value last stored differs from that polarity, in all three colours |
| Screens.StandardScreensShowLastWords | usim-cs/Program.cs:490-505 | and on both screens the emulator sets up every pixel is |
| Screens.TickInterrupts | usim-cs/Tv.cs:184-193 | a tick sets bit 4 of the mode and interrupts exactly when bit 3 is set, and changes nothing else |
| Screens.ControlReadsBack | usim-cs/Tv.cs:88-172 | the mode reads back, bit 7 of the vertical spacing opens sync memory, and other registers report a missing address |
| Screens.ColourPromSwitch | usim-cs/ColorTv.cs:135-145 | the same switch of the colour display is kept apart from the spacing |
| DisplayModel.SyncMemoryReadsBack | usim-cs/Tv.cs:146-161 | sync memory reads back what was stored at an address, whatever is stored elsewhere |
| DisplayModel.PartialWordIsStale | usim-cs/Tv.cs:134-142 | otherwise a mode write leaves the first pixel of the partial word stale |
| DisplayModel.NibbleIsField | usim-cs/ColorTv.cs:228-259 | the four bits the running shift delivers are the pixel's own field of its word |
| DisplayModel.WriteMapSetsChannel | usim-cs/ColorTv.cs:147-176 | a colour map store sets one channel of one entry to the complement of the value, and alpha, and nothing else |
| DisplayModel.ColourSyncReadsBack | usim-cs/ColorTv.cs:122-145 | the same of the colour display's sync memory |
| Displays.Tv.ScreenWrite | usim-cs/Tv.cs:65-81 | thirty-two pixels unpacked in place, low bit first |
| Displays.Tv.ModeWrite | usim-cs/Tv.cs:123-144 | the repaint loop in place, word by word |
| Displays.ColorTv.ControlRead | usim-cs/ColorTv.cs:70-110 | the mode with the PROM switch and both timing signals, each on its own bit |
| Displays.ColorTv.Tick | usim-cs/ColorTv.cs:193-220 | after an enabled tick every byte of the frame buffer is that of the colour map entry of its pixel |
| Displays.ColorTv.UnpackFrameBuffer | usim-cs/ColorTv.cs:228-259 | the nested loops with their running word, with no index out of range |
| KeyboardModel.ScancodeDecodes | usim-cs/Keyboard.cs:129-159 | a scancode carries its header, direction and seven bits of key |
| KeyboardModel.PumpKeeps | usim-cs/Keyboard.cs:89-122 | a pump keeps the invariant, however many scancodes it drops |
| KeyboardModel.StepKeeps | usim-cs/Keyboard.cs:65-122 | so does every event |
| KeyboardModel.RunConserves | usim-cs/Keyboard.cs:65-122 | in every run from power-on, with a clock that does not run backwards: accepted scancodes are, in order, those delivered or dropped and then the queue, of at most 100; every delivered one was taken by Lisp or is still unread; every drop was forced by one unread scancode blocking for 510 ms, in waits that do not overlap |
| KeyboardModel.ReadyBit | usim-cs/Iob.cs:79-131 | the keyboard's ready bit is set by a delivery and cleared by a read of the scancode, and no mouse event or store into the status register changes it |
| KeyboardModel.HeadIsDelivered | usim-cs/Keyboard.cs:97-104 | once Lisp has read the mailbox the next pump delivers the head of the queue |
| KeyboardRuns.KeyIsAcceptedIff | usim-cs/Keyboard.cs:65-159 | a key is accepted, with its header, direction and key bits by number, exactly when it exists and fewer than a hundred scancodes wait; otherwise nothing changes |
| KeyboardRuns.RunAccepts | usim-cs/Keyboard.cs:65-159 | over runs the accepted scancodes are those of exactly such key events, in order |
| KeyboardRuns.RunAccountsForKeys | usim-cs/Keyboard.cs:65-122 | so every such key was delivered or dropped, in order, or still waits |
| KeyboardRuns.EmptyMailboxIsFilled | usim-cs/Iob.cs:79-93 | a delivery sets bit 5 of the status and interrupts exactly when bit 2 is set |
| KeyboardRuns.FullMailboxIsWaitedFor | usim-cs/Keyboard.cs:106-116 | before 510 ms of waiting have passed nothing is given up |
| KeyboardRuns.HeadIsDroppedAfterTimeout | usim-cs/Keyboard.cs:117-121 | from then on the head is, and the next begins to wait at the same moment |
| Keyboards.Keyboard.Pump | usim-cs/Keyboard.cs:89-122 | the delivery loop with its clock readings |
| Keyboards.Iob.Read | usim-cs/Iob.cs:112-194 | every register of the board as read; only the low half of the scancode and the mouse's y free their mailboxes, and both halves of the clock are of one moment |
| Keyboards.Iob.Write | usim-cs/Iob.cs:197-245 | of the status register only the low four bits change, never a ready bit; the interval timer is set in ticks, rounded up |

## Left out

- The virtual memory map (`Uvmem`): its answers are part of `Env`, and so is what a map write changes in them.
- UCodeMachine.UCode.Step: a bus reset requested through the interrupt control register acts on devices only, which are
  outside this state; a device write can change the PROM switch and MD, as `Env` answers.
- The processor's MD register seen through the Unibus map is a field of the bus state; that a processor cycle changes it
  between two transfers is not modelled.
- A tape transfer whose address runs into the tape controller's own registers: what a device register does is an arbitrary
  answer that can set error bits, but not change the controller in the middle of its loop.
- The packing of the disk status word, and the tape error bit BTE, which nothing sets.
- The diagnostic and bus interface registers, the packing of mouse positions and buttons, the beep of the I/O board, and
  its warm-boot scancode.
- Files, configuration, flushing and sharing: a tape is an array of bytes, a disk pack an array of pages of 256 words. A
  drive that was never configured is one that is not on line.
- The trace latches and statistics of the processor (`MachineCycles`, `AAddr`, `MAddr`, `Op`), which nothing reads back.
- Initialisation of the keyboard in mid-run, and scancodes entered before the I/O board is connected.
- Out of range by the hardware's own definition: LC beyond 26 bits, a divisor of -2^31, a call from the last word of
  control memory.
- The audio, window, debugger, console and trace parts, and the `chaos-cs` project.
- Microprograms.MultiplyProgram: the instructions stand one after another in control memory and name one A and one M
  register; programs that reach the steps through jumps are covered only by the lemma about a single step.
- MemoryTiming.LcFetchesEachWordOnce: advances follow each other without another load of LC or change of byte mode between.
- ByteFields.ByteDisassemblyIsTruthful: fields that wrap past bit 31 and the rotation selected by LC are excluded, since
  the printed text cannot show them.
- TapeTransfer.RoundTrip: counts that are not multiples of four are refused by the controller, so only those that are
  appear.
