# LC-3 virtual machine, modelled in Dafny

This project models the execution engine of a small LC-3-style emulator. The engine is the class
`VM::vm` in `src/vm.h`. It is a 16-bit register machine with:

- 65536 words of memory;
- eight general registers R0..R7, a program counter and a condition register (COND) holding
  one of three flags (P, Z, N);
- a memory-mapped keyboard, with a status register KBSR at 0xFE00 and a data register KBDR
  at 0xFE02;
- six trap services (GETC, OUT, PUTS, IN, PUTSP, HALT);
- a loader for big-endian object images;
- the `execute` loop, which fetches, increments PC and dispatches on the top four bits of each
  instruction.

The model has two layers.

- **Reference semantics** (`semantics.dfy`, module `Semantics`). A datatype `State` holds the
  whole machine as values: memory, registers, the `run` flag and the console. Each instruction
  handler (BR .. LEA, TRAP), `update_flags`, `mem_read`, `mem_write`, the fetch, the dispatch
  and `execute` has a function here. Its contract states what the operation does to the
  state. `check_key` is the predicate `KeyReady` on the oracle. `sign_extend` and `swap16`
  live in module `Bits`. `read_image_file` is `Loader.LoadImage`.
- **The class** (`machine.dfy`, module `Machine`). `Machine.Vm` has array fields `memory` and
  `regs`, updated in place as the C++ code updates them. It also has fields `run`, `input`,
  `ready` and `output`.
  - Each handler method, `UpdateFlags`, `MemRead`, `MemWrite`, `Trap`, `Dispatch`, `Step` and
    `Execute` is proved to leave the object in exactly the state the `Semantics` function of
    the same name gives, through the abstraction `Abs()`. So the properties proved of those
    functions hold of the class.
  - `Fread`, `ReadImageFile` and `ReadImage` are tied to `Loader.Fread` and `Loader.LoadImage`
    over `memory[..]`.
  - `Puts`, `Putsp` and `PutPacked` are tied to `output` only.
  - `CheckKey` and `Getchar` are tied to the oracle and the input.
  - `Store` is tied to the memory array.

  The loops of the source stay loops with invariants: the PUTS and PUTSP scans, the byte-swap
  loop of `read_image_file`, and the `while (run)` loop of `execute`.

The other modules are:

- `bits.dfy` (`Bits`): 16-bit words (`bv16`), `sign_extend`, `swap16`, and the byte halves of a
  word.
- `isa.dfy` (`Isa`): the constants of the instruction set, decoding of the opcode and the
  fields, and the signed values of the sign-extended offsets.
- `loader.dfy` (`Loader`): the image format, and what `read_image_file` does to memory.
- `properties.dfy` (`Properties`): properties that relate several operations. These cover
  branching, arithmetic identities, the indirect loads and stores, keyboard polling,
  call/return, the strings PUTS and PUTSP print, and the loop (HALT ends it, RTI/RES abort it,
  and a run can be split and extended).
- `scenarios.dfy` (`Scenarios`): concrete programs loaded from image bytes and run: ADD then
  HALT, an LEA/STR program that overwrites its own HALT, an LDI that polls the keyboard, and
  `JSRR R7`.

The environment is modelled as values:

- Console input is the sequence of bytes successive `getchar` calls return. Once it is
  exhausted, `getchar` returns EOF (-1).
- `check_key` is an oracle: a sequence of booleans, one consumed per poll. Once it is
  exhausted, no key is ready.
- Console output is the sequence of bytes written.
- An image file is its byte sequence, or `None` when `fopen` fails.
- `execute` takes a step budget (fuel), because `while (run)` need not terminate. It reports
  `Halted`, `Aborted(opcode)` for the `abort()` on RTI/RES, or `OutOfFuel`.

Behaviour of the code worth noting, which the model keeps:

- **IN.** The character is stored through a `char` (src/vm.h:254-257), so on a signed-`char`
  platform R0 receives it sign-extended, not zero-extended (`Isa.CharToWord`,
  `Isa.CharToWordValue`).
- **Loader bound.** The loader reads at most `UINT16_MAX - origin` words (src/vm.h:294), one
  fewer than would fill memory. The last cell, 0xFFFF, is never loaded
  (`Scenarios.LastCellNeverLoaded`).
- **GETC and IN.** These consume the next input byte; there is no blocking.
- **Unknown trap vectors.** A vector outside 0x20..0x25 falls through the `switch` and changes
  nothing.

## Model

| member | source | states |
|---|---|---|
| Bits.Signed | src/vm.h:97 | the two's-complement reading of a word lies in -2^15..2^15-1, is negative exactly when bit 15 is set, and is zero exactly for the word 0 |
| Bits.SignExtend | src/vm.h:87-92 | when bit n-1 of x is clear the result is x itself; when it is set every bit from n upwards of the result is set |
| Bits.Swap16 | src/vm.h:128 | the low byte of the result is the high byte of the argument and vice versa |
| Bits.Swap16Involutive | src/vm.h:128 | swapping twice gives the word back |
| Bits.JoinSplit | src/vm.h:128 | a word is determined by its two bytes |
| Isa.Addr | src/vm.h:26 | every 16-bit address names one of the MEMORY_MAX = 2^16 cells |
| Isa.Decode | src/vm.h:319 | the opcode chosen is the one whose enumeration value is `instr >> 12` |
| Isa.CodeInjective | src/vm.h:43-60 | distinct opcodes have distinct values, so each instruction has exactly one handler |
| Isa.Dr | src/vm.h:138 | bits 11..9 name one of R0..R7 |
| Isa.Sr1 | src/vm.h:139 | bits 8..6 name one of R0..R7 |
| Isa.Sr2 | src/vm.h:146 | bits 2..0 name one of R0..R7 |
| Isa.CondMask | src/vm.h:132 | the n, z, p mask is three bits wide |
| Isa.TrapVector | src/vm.h:233 | the trap vector is the low byte, below 0x100 |
| Isa.Imm5 | src/vm.h:143 | `sign_extend(instr & 0x1f, 5)` keeps the five field bits and copies bit 4 into bits 15..5 |
| Isa.Offset6 | src/vm.h:193 | `sign_extend(instr & 0x3F, 6)` keeps the six field bits and copies bit 5 into bits 15..6 |
| Isa.PcOffset9 | src/vm.h:131 | `sign_extend(instr & 0x1ff, 9)` keeps the nine field bits and copies bit 8 into bits 15..9 |
| Isa.PcOffset11 | src/vm.h:165 | `sign_extend(instr & 0x7ff, 11)` keeps the eleven field bits and copies bit 10 into bits 15..11 |
| Isa.CharToWord | src/vm.h:254-257 | a `signed char` converted to uint16_t keeps its byte as the low byte and fills the high byte with its sign |
| Isa.Imm5Value | src/vm.h:143 | as a signed number, imm5 is the five-bit field read in two's complement |
| Isa.Offset6Value | src/vm.h:193 | as a signed number, offset6 is the six-bit field read in two's complement |
| Isa.PcOffset9Value | src/vm.h:131 | as a signed number, pcoffset9 is the nine-bit field read in two's complement |
| Isa.PcOffset11Value | src/vm.h:165 | as a signed number, pcoffset11 is the eleven-bit field read in two's complement |
| Isa.CharToWordValue | src/vm.h:254-257 | the character IN stores keeps its `signed char` value, -128..127 |
| Semantics.Init | src/vm.h:83-85 | a fresh machine has zero memory and registers, `run` set and nothing written |
| Semantics.FlagOf | src/vm.h:94-103 | the flag is one of P, Z, N; Z exactly for 0; N exactly when bit 15 is set, i.e. the value is negative; P exactly when it is positive |
| Semantics.UpdateFlags | src/vm.h:94-103 | COND becomes the flag of regs[r] and nothing else changes |
| Semantics.MemWrite | src/vm.h:104 | the word at the address becomes the value; every other cell, the registers and the console are unchanged |
| Semantics.GetcharWordIsConversion | src/vm.h:235 | `(uint16_t)getchar()` is the `int` getchar returns (the next byte, or EOF = -1 at the end of input) reduced modulo 2^16, as C converts to an unsigned type |
| Semantics.GetcharByte | src/vm.h:254 | `getchar()` stored in a `char` is the low byte of that word |
| Semantics.Poll | src/vm.h:107-114 | with a key ready KBSR becomes 0x8000, KBDR the next character, and that character is consumed; otherwise KBSR becomes 0; one oracle answer is consumed and no other cell changes |
| Semantics.MemRead | src/vm.h:106-116 | any address but KBSR is a plain load that changes nothing; KBSR polls, and the value read is 0x8000 exactly when a key was ready and 0 exactly when none was |
| Semantics.Br | src/vm.h:130-136 | when the mask meets COND, PC moves by pcoffset9 modulo 2^16 and nothing else changes; otherwise the state is unchanged |
| Semantics.Operand | src/vm.h:142-148 | in immediate mode the second operand is sign-extended imm5, a signed value in -16..15; otherwise it is regs[sr2] |
| Semantics.Add | src/vm.h:137-151 | dr = sr1 + operand modulo 2^16, COND its flag, no other register, memory or console change |
| Semantics.And | src/vm.h:175-189 | dr = sr1 & operand, COND its flag, no other register, memory or console change |
| Semantics.Not | src/vm.h:203-210 | dr = the complement of sr, COND its flag, no other register, memory or console change |
| Semantics.Ld | src/vm.h:152-157 | dr receives `mem_read(PC + pcoffset9)` and COND its flag; only dr and COND change; memory, input and oracle are as that read left them, `run` and output unchanged; away from KBSR nothing else changes |
| Semantics.Ldr | src/vm.h:190-196 | dr receives `mem_read(base + offset6)` and COND its flag; only dr and COND change; memory, input and oracle are as that read left them, `run` and output unchanged; away from KBSR nothing else changes |
| Semantics.Ldi | src/vm.h:211-216 | dr receives the word read through the pointer read at PC + pcoffset9, each read with its keyboard poll, and COND its flag; only dr and COND change; memory, input and oracle are as the second read left them, `run` and output unchanged |
| Semantics.Lea | src/vm.h:226-231 | dr = PC + pcoffset9 and COND its flag; memory is not read |
| Semantics.St | src/vm.h:158-162 | the cell at PC + pcoffset9 receives regs[sr]; no other cell and no register changes |
| Semantics.Str | src/vm.h:197-202 | the cell at base + offset6 receives regs[sr]; no other cell and no register changes |
| Semantics.Sti | src/vm.h:217-221 | the cell whose address is read at PC + pcoffset9 receives regs[sr]; besides that store only the poll of the pointer read changes memory or input |
| Semantics.Jsr | src/vm.h:163-174 | R7 = old PC; PC += pcoffset11 with bit 11 set, else PC = regs[base], which for base R7 is the old PC; nothing else changes |
| Semantics.Jmp | src/vm.h:222-225 | PC = regs[base] and nothing else changes |
| Semantics.Packed | src/vm.h:267-271 | one PUTSP word prints its low byte, then its high byte exactly when that is nonzero |
| Semantics.Trap | src/vm.h:232-284 | per vector: GETC sets R0 without flags; OUT prints the low byte of R0; PUTS/PUTSP print the string at R0; IN prints the prompt and the echo, sets R0 and COND; HALT prints "HALT\n" and clears `run`; any other vector changes nothing; memory never changes |
| Semantics.Fetch | src/vm.h:318 | the instruction is the word at PC read without a keyboard poll, and PC is incremented modulo 2^16; nothing else changes |
| Semantics.Dispatch | src/vm.h:321-370 | exactly RTI and RES fault, with their opcode and no effect; every handler keeps COND a flag |
| Semantics.Step | src/vm.h:317-370 | one iteration keeps COND a flag, and a faulting iteration leaves `run` as it was |
| Semantics.StepClosed | src/vm.h:317-371 | the step function is defined on every valid state and preserves validity and the flag invariant |
| Semantics.Loop | src/vm.h:317-371 | the loop ends Halted exactly when `run` is clear at the end, and COND stays a flag |
| Semantics.Run | src/vm.h:317-371 | the machine's loop ends Halted exactly when `run` is clear, and COND stays a flag |
| Semantics.Start | src/vm.h:314-315 | `execute` begins with COND = FL_ZRO and PC = 0x3000, and nothing else changes |
| Semantics.Execute | src/vm.h:313-372 | after `execute` COND holds one flag, and the exit is Halted exactly when `run` is clear |
| Properties.BranchTaken | src/vm.h:133 | BR branches exactly when its n, z or p bit selects the flag COND holds |
| Properties.BranchAlwaysOrNever | src/vm.h:130-136 | BRnzp always jumps by pcoffset9; BR with an empty mask never changes anything |
| Properties.AddImmediateFromZero | src/vm.h:142-144 | ADD with a zero source and an immediate loads the sign-extended immediate |
| Properties.AndZeroClears | src/vm.h:180-182 | `AND dr, sr1, #0` clears dr and sets Z, while `ADD dr, sr1, #0` copies sr1 |
| Properties.NotTwice | src/vm.h:207 | NOT applied twice to one register gives the register back |
| Properties.LdiIndirect | src/vm.h:211-216 | away from KBSR, LDI loads `mem[mem[PC + pcoffset9]]`, sets the flag and changes only dr and COND |
| Properties.StiIndirect | src/vm.h:217-221 | away from KBSR, STI stores regs[sr] at `mem[PC + pcoffset9]` and changes only that cell |
| Properties.SameAddressing | src/vm.h:152-162 | LD reads and ST writes the very cell whose address LEA computes |
| Properties.StoreThenLoad | src/vm.h:104-116 | a load of a word just stored at a non-device address reads it back |
| Properties.PollConsistent | src/vm.h:106-116 | reading KBSR consumes one oracle answer; the status is 0x8000 exactly when a key was ready, with KBDR holding and consuming the next byte; otherwise 0 with no input consumed |
| Properties.DataRegisterDoesNotPoll | src/vm.h:107 | reading KBDR is a plain load |
| Properties.CallReturn | src/vm.h:163-174 | `JMP R7` after JSR or JSRR returns to the instruction after the call |
| Properties.PutsTextIsLowBytes | src/vm.h:243-251 | PUTS prints exactly one character per word up to the terminator, the low byte of each |
| Properties.PutspTextLength | src/vm.h:261-276 | PUTSP prints between one and two characters per word of the string |
| Properties.PutspOfNarrowString | src/vm.h:261-276 | on a string whose words have zero high bytes, PUTSP prints what PUTS prints |
| Properties.StepRoutes | src/vm.h:318-370 | the fetched word runs exactly the handler its opcode names on the state after the fetch, and RTI/RES fault with their opcode |
| Properties.RunNext | src/vm.h:317-371 | a step that does not fault is one iteration: the rest of the run continues from its state |
| Properties.RunFault | src/vm.h:346-363 | a faulting step ends the run with its opcode |
| Properties.LoopFinal | src/vm.h:317 | once the loop has ended, any larger budget gives the same outcome |
| Properties.LoopResume | src/vm.h:317 | a loop stopped by its budget after a steps continues with b more as if given a + b |
| Properties.RunFinal | src/vm.h:317-371 | a finished run of the machine is final whatever the extra budget |
| Properties.RunResume | src/vm.h:317-371 | the machine run for a + b steps is the run for a followed by the run for b |
| Properties.HaltStops | src/vm.h:277-282 | a fetched TRAP x25 ends the loop Halted after printing "HALT\n", with memory as it was and no further fetch |
| Properties.ReservedAborts | src/vm.h:346-363 | a fetched RTI or RES ends the loop Aborted with that opcode before any effect |
| Loader.RawWord | src/vm.h:290 | `fread` of a uint16_t on a little-endian host takes the first byte as the low byte |
| Loader.Origin | src/vm.h:289-291 | the origin is the first two file bytes read big-endian |
| Loader.WordCount | src/vm.h:296 | the words read are whole words after the origin, at most max_read, and all of them unless max_read stops the read |
| Loader.LoadImage | src/vm.h:287-303 | every cell outside the loaded range keeps its value |
| Loader.LoadedWords | src/vm.h:295-302 | payload word i lands at origin + i in the file's big-endian order |
| Loader.LoadIsSwappedFread | src/vm.h:298-302 | swapping in place exactly the cells `fread` filled gives the loaded memory |
| Loader.ImageLayout | src/vm.h:289-296 | an image holds the origin word and then each payload word, big-endian |
| Loader.LoadOfImage | src/vm.h:287-303 | loading the image of ws at origin puts ws[i] at origin + i and leaves every other cell unchanged |
| Loader.LoadThenSerialize | src/vm.h:287-303 | the loaded words serialised again behind the origin give back the file bytes that were read |
| Loader.ReswapGivesRaw | src/vm.h:300 | swapping a loaded word again gives the word `fread` stored |
| Machine.Vm.constructor | src/vm.h:83-85 | a new machine is the initial state of the semantics |
| Machine.Vm.CheckKey | src/vm.h:118-127 | `check_key` returns and consumes the next oracle answer |
| Machine.Vm.Getchar | src/vm.h:235 | `getchar` returns the next input byte as a word, or 0xFFFF at the end of input, and consumes it |
| Machine.Vm.UpdateFlags | src/vm.h:94-103 | the in-place update gives `Semantics.UpdateFlags` |
| Machine.Vm.MemWrite | src/vm.h:104 | the in-place store gives `Semantics.MemWrite` |
| Machine.Vm.MemRead | src/vm.h:106-116 | the value and the new state are those of `Semantics.MemRead`, including the poll |
| Machine.Vm.Br | src/vm.h:130-136 | the in-place handler gives `Semantics.Br` |
| Machine.Vm.Add | src/vm.h:137-151 | the in-place handler gives `Semantics.Add` |
| Machine.Vm.Ld | src/vm.h:152-157 | the in-place handler gives `Semantics.Ld` |
| Machine.Vm.St | src/vm.h:158-162 | the in-place handler gives `Semantics.St` |
| Machine.Vm.Jsr | src/vm.h:163-174 | the in-place handler gives `Semantics.Jsr` |
| Machine.Vm.And | src/vm.h:175-189 | the in-place handler gives `Semantics.And` |
| Machine.Vm.Ldr | src/vm.h:190-196 | the in-place handler gives `Semantics.Ldr` |
| Machine.Vm.Str | src/vm.h:197-202 | the in-place handler gives `Semantics.Str` |
| Machine.Vm.Not | src/vm.h:203-210 | the in-place handler gives `Semantics.Not` |
| Machine.Vm.Ldi | src/vm.h:211-216 | the in-place handler gives `Semantics.Ldi` |
| Machine.Vm.Sti | src/vm.h:217-221 | the in-place handler gives `Semantics.Sti` |
| Machine.Vm.Jmp | src/vm.h:222-225 | the in-place handler gives `Semantics.Jmp` |
| Machine.Vm.Lea | src/vm.h:226-231 | the in-place handler gives `Semantics.Lea` |
| Machine.Vm.Puts | src/vm.h:243-251 | the loop appends exactly the PUTS text of the string at R0 |
| Machine.Vm.Putsp | src/vm.h:261-276 | the loop appends exactly the PUTSP text of the string at R0 |
| Machine.Vm.PutPacked | src/vm.h:267-271 | one pass of the PUTSP loop appends the characters the word packs |
| Machine.Vm.Trap | src/vm.h:232-284 | the service routine gives `Semantics.Trap` |
| Machine.Vm.Dispatch | src/vm.h:321-370 | the `switch` runs the handler `Semantics.Dispatch` names, or reports the fault of RTI/RES |
| Machine.Vm.Step | src/vm.h:318-370 | one pass of the loop body gives `Semantics.Step` |
| Machine.Vm.Execute | src/vm.h:313-372 | the loop ends with the exit and in the state `Semantics.Execute` gives |
| Machine.Vm.Fread | src/vm.h:296 | the bulk read stores the raw payload words from the origin and returns their number |
| Machine.Vm.ReadImageFile | src/vm.h:287-303 | the origin read, the bulk read and the swap loop leave memory as `Loader.LoadImage` gives |
| Machine.Vm.ReadImage | src/vm.h:304-312 | a file that cannot be opened loads nothing and reports failure; otherwise the image is loaded and success reported |
| Scenarios.AddHaltImage | src/vm.h:287-303 | the ADD/HALT image puts its two words at 0x3000 and 0x3001 and nothing else in a fresh memory |
| Scenarios.AddHaltRuns | src/vm.h:313-372 | "ADD R0, R0, #0; TRAP x25" from image bytes ends Halted with R0 = 0, COND = Z, PC = 0x3002 and "HALT\n" printed |
| Scenarios.LeaStrOverwritesHalt | src/vm.h:226-231 | "LEA R0, #1; STR R1, R0, #0; TRAP x25" stores over its own TRAP word, which is then fetched as a no-op branch, so the program has not halted |
| Scenarios.LdiPollsKeyboard | src/vm.h:211-216 | an LDI whose pointer is KBSR polls the keyboard: R0 receives 0x8000, COND = N, and the character moves to KBDR |
| Scenarios.JsrrThroughR7 | src/vm.h:168-172 | `JSRR R7` jumps to the old PC, since R7 is written before it is read |
| Scenarios.LastCellNeverLoaded | src/vm.h:294 | no image ever writes the cell 0xFFFF |
| Scenarios.RunAddHalt | src/vm.h:304-372 | the class, loading the ADD/HALT image and executing it, halts with R0 = 0, COND = Z and "HALT\n" printed |

## Left out

- `src/main.cpp`, the command-line wrapper (argument handling, usage text, exit codes), is not
  part of this model.
- `check_key` is an oracle sequence of answers instead of a zero-timeout `select` on stdin.
  The timing of key presses relative to instructions is therefore a parameter, not modelled.
- Console output is a sequence of bytes. `fflush` has no counterpart, and buffering is not
  modelled.
- `getchar` never blocks. At the end of the given input it returns EOF (-1), where a terminal
  would wait.
- `fopen` and `fclose` are reduced to an optional byte sequence: `None` is a file that cannot be
  opened. Read errors other than end of file are not modelled.
- `abort()` on RTI and RES is the exit `Aborted(opcode)` rather than the end of the process.
- The `while (run)` loop runs for at most a given number of iterations (fuel). A program that
  does not halt within that budget ends with `OutOfFuel`.
- The PUTS and PUTSP scans stop at the end of memory when no zero word is found. The source
  walks its pointer past the end of the array, which is undefined behaviour.
- A trailing odd byte of an image file is not stored. The C standard leaves the value of a
  partially read element indeterminate.
- A file shorter than two bytes loads nothing. The source would then swap an unset `origin`,
  but reads no words.
- `char` is taken to be signed (as on x86-64) in IN. On a platform with unsigned `char`, R0
  would receive the byte zero-extended.
- Bits.SignExtend: the low-bits half of `sign_extend`'s promise (the low n bits of the result
  are those of x) is stated for each width the source uses. These are `Isa.Imm5` (5),
  `Isa.Offset6` (6), `Isa.PcOffset9` (9), `Isa.PcOffset11` (11) and `Isa.CharToWord` (8),
  not for a general width n. The general statement, with a shift by a variable amount, is
  beyond the solver's budget.
