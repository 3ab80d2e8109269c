/**
 * The reference semantics of the machine in src/vm.h, as functions over a value of the whole
 * machine state. Each handler of the class `VM::vm` has a function here of the same name; the
 * imperative model in module Machine is proved to compute exactly these functions.
 */
module Semantics {
  import opened Bits
  import opened Isa

  /**
   * The machine: `memory`, `regs`, the `run` flag, and the console. `input` holds the bytes that
   * successive `getchar` calls will return, in order; `ready` holds the answers that successive
   * `check_key` polls will give; `output` is everything written to stdout so far.
   */
  datatype State = State(mem: seq<Word>, regs: seq<Word>, run: bool,
                         input: seq<Byte>, ready: seq<bool>, output: seq<Byte>)

  /** Memory has 65536 words and the register file R0..R7, PC, COND. */
  predicate Valid(s: State)
  {
    |s.mem| == MEMORY_MAX && |s.regs| == R_COUNT
  }

  /** A condition value holds exactly one of the three flags. */
  predicate IsFlag(w: Word)
  {
    w == FL_POS || w == FL_ZRO || w == FL_NEG
  }

  /** The invariant of a running machine: COND holds one flag. */
  predicate CondIsFlag(s: State)
    requires Valid(s)
  {
    IsFlag(s.regs[R_COND])
  }

  /** Only the registers in `rs` may differ between `s` and `t`. */
  predicate RegsExcept(s: State, t: State, rs: set<nat>)
    requires Valid(s) && Valid(t)
  {
    forall i :: 0 <= i < R_COUNT && i !in rs ==> t.regs[i] == s.regs[i]
  }

  /** The run flag and the console are the same in `s` and `t`. */
  predicate SameConsole(s: State, t: State)
  {
    t.run == s.run && t.input == s.input && t.ready == s.ready && t.output == s.output
  }

  /** Everything but the word at address `a` is the same in `m` and `m'`. */
  predicate MemExcept(m: seq<Word>, m': seq<Word>, a: set<int>)
    requires |m| == |m'| == MEMORY_MAX
  {
    forall b :: 0 <= b < MEMORY_MAX && b !in a ==> m'[b] == m[b]
  }

  /** A fresh machine: `new VM::vm()` zero-fills memory and registers and sets `run`. */
  function Init(input: seq<Byte>, ready: seq<bool>): (s: State)
    ensures Valid(s) && s.run && s.output == [] && s.input == input && s.ready == ready
    ensures forall a :: 0 <= a < MEMORY_MAX ==> s.mem[a] == 0
    ensures forall i :: 0 <= i < R_COUNT ==> s.regs[i] == 0
  {
    State(seq(MEMORY_MAX, _ => 0), seq(R_COUNT, _ => 0), true, input, ready, [])
  }

  /** The sequence without its first element, or the empty sequence. */
  function Tail<T>(xs: seq<T>): (r: seq<T>)
    ensures xs == [] ==> r == []
    ensures xs != [] ==> [xs[0]] + r == xs
  {
    if xs == [] then [] else xs[1..]
  }

  // ---------------------------------------------------------------- flags

  /** The flag `update_flags` stores for a register value. */
  function FlagOf(v: Word): (f: Word)
    ensures IsFlag(f)
    ensures f == FL_ZRO <==> v == 0
    ensures f == FL_NEG <==> Bit(v, 15)
    ensures f == FL_NEG <==> Signed(v) < 0
    ensures f == FL_POS <==> Signed(v) > 0
  {
    if v == 0 then FL_ZRO else if v >> 15 != 0 then FL_NEG else FL_POS
  }

  /** `update_flags(r)`: COND describes the sign of `regs[r]`; nothing else changes. */
  function UpdateFlags(s: State, r: nat): (t: State)
    requires Valid(s) && r < R_COUNT
    ensures Valid(t) && CondIsFlag(t)
    ensures t.regs[R_COND] == FlagOf(s.regs[r])
    ensures RegsExcept(s, t, {R_COND}) && t.mem == s.mem && SameConsole(s, t)
  {
    s.(regs := s.regs[R_COND := FlagOf(s.regs[r])])
  }

  // ---------------------------------------------------------------- memory

  /** `mem_write(address, val)`: a plain store. */
  function MemWrite(s: State, a: Word, v: Word): (t: State)
    requires Valid(s)
    ensures Valid(t) && t.mem[Addr(a)] == v && MemExcept(s.mem, t.mem, {Addr(a)})
    ensures t.regs == s.regs && SameConsole(s, t)
  {
    s.(mem := s.mem[Addr(a) := v])
  }

  /** `getchar()` converted to uint16_t: the next input byte, or EOF (-1) as 0xFFFF. */
  function GetcharWord(input: seq<Byte>): (w: Word)
    ensures input != [] ==> w == input[0] as Word
    ensures input == [] ==> w == 0xFFFF
  {
    if input == [] then 0xFFFF else input[0] as Word
  }

  /**
   * That word is the `int` `getchar` returns (the next byte, or EOF = -1) reduced modulo 2^16,
   * as C converts an `int` to uint16_t.
   */
  lemma GetcharWordIsConversion(input: seq<Byte>)
    ensures GetcharWord(input) as int == (if input == [] then -1 else input[0] as int) % 0x1_0000
  {
    if input == [] {
      assert GetcharWord(input) == 0xFFFF;
    } else {
      assert GetcharWord(input) == input[0] as Word;
    }
  }

  /** `getchar()` stored in a `char`: the next input byte, or EOF (-1) truncated to 0xFF. */
  function GetcharByte(input: seq<Byte>): (b: Byte)
    ensures Lo(GetcharWord(input)) == b
  {
    if input == [] then 0xFF else input[0]
  }

  /** The answer of `check_key()` at this poll; once the oracle is exhausted, no key is ready. */
  predicate KeyReady(s: State)
  {
    s.ready != [] && s.ready[0]
  }

  /**
   * The keyboard poll `mem_read` performs when it reads the status register: with a key ready,
   * KBSR becomes 0x8000 and KBDR the next character; otherwise KBSR becomes 0.
   */
  function Poll(s: State): (t: State)
    requires Valid(s)
    ensures Valid(t) && t.regs == s.regs && t.run == s.run && t.output == s.output
    ensures t.ready == Tail(s.ready)
    ensures KeyReady(s) ==>
              t.mem[Addr(MR_KBSR)] == 0x8000 && t.mem[Addr(MR_KBDR)] == GetcharWord(s.input)
              && t.input == Tail(s.input) && MemExcept(s.mem, t.mem, {Addr(MR_KBSR), Addr(MR_KBDR)})
    ensures !KeyReady(s) ==>
              t.mem[Addr(MR_KBSR)] == 0 && t.input == s.input && MemExcept(s.mem, t.mem, {Addr(MR_KBSR)})
  {
    var s1 := s.(ready := Tail(s.ready));
    if KeyReady(s) then
      s1.(mem := s.mem[Addr(MR_KBSR) := 0x8000][Addr(MR_KBDR) := GetcharWord(s.input)],
          input := Tail(s.input))
    else
      s1.(mem := s.mem[Addr(MR_KBSR) := 0])
  }

  /** The state after a memory read and the word it returned. */
  datatype Read = Read(state: State, value: Word)

  /**
   * `mem_read(address)`: any address other than KBSR is a plain load that changes nothing;
   * reading KBSR first polls the keyboard and then returns the new status word.
   */
  function MemRead(s: State, a: Word): (r: Read)
    requires Valid(s)
    ensures Valid(r.state) && r.value == r.state.mem[Addr(a)]
    ensures a != MR_KBSR ==> r.state == s && r.value == s.mem[Addr(a)]
    ensures a == MR_KBSR ==> r.state == Poll(s)
    ensures a == MR_KBSR ==> (r.value == 0x8000 <==> KeyReady(s))
    ensures a == MR_KBSR ==> (r.value == 0 <==> !KeyReady(s))
  {
    var t := if a == MR_KBSR then Poll(s) else s;
    Read(t, t.mem[Addr(a)])
  }

  // ---------------------------------------------------------------- instruction handlers

  /** The address PC + pcoffset9 used by LD, ST, LDI, STI and LEA. */
  function PcRelative(s: State, instr: Word): Word
    requires Valid(s)
  {
    Add16(s.regs[R_PC], PcOffset9(instr))
  }

  /** BR: when the condition mask meets COND, PC moves by pcoffset9; otherwise nothing changes. */
  function Br(s: State, instr: Word): (t: State)
    requires Valid(s)
    ensures Valid(t)
    ensures CondMask(instr) & s.regs[R_COND] != 0 ==>
      t.regs[R_PC] == Add16(s.regs[R_PC], PcOffset9(instr))
      && RegsExcept(s, t, {R_PC}) && t.mem == s.mem && SameConsole(s, t)
    ensures CondMask(instr) & s.regs[R_COND] == 0 ==> t == s
  {
    var offset := PcOffset9(instr);
    var cond := CondMask(instr);
    if cond & s.regs[R_COND] != 0 then s.(regs := s.regs[R_PC := Add16(s.regs[R_PC], offset)]) else s
  }

  /** The second operand of ADD and AND: imm5 sign-extended in immediate mode, else regs[sr2]. */
  function Operand(s: State, instr: Word): (v: Word)
    requires Valid(s)
    ensures ImmFlag(instr) ==> v == Imm5(instr) && -16 <= Signed(v) < 16
    ensures !ImmFlag(instr) ==> v == s.regs[Sr2(instr)]
  {
    if ImmFlag(instr) then Imm5Value(instr); Imm5(instr) else s.regs[Sr2(instr)]
  }

  /** The state after a register-defining instruction stores `v` into `dr` and sets the flags. */
  function SetReg(s: State, dr: nat, v: Word): (t: State)
    requires Valid(s) && dr < 8
    ensures Valid(t) && CondIsFlag(t)
    ensures t.regs[dr] == v && t.regs[R_COND] == FlagOf(v)
    ensures RegsExcept(s, t, {dr, R_COND}) && t.mem == s.mem && SameConsole(s, t)
  {
    UpdateFlags(s.(regs := s.regs[dr := v]), dr)
  }

  /** ADD: dr = sr1 + operand modulo 2^16, then the flags. */
  function Add(s: State, instr: Word): (t: State)
    requires Valid(s)
    ensures Valid(t) && CondIsFlag(t)
    ensures t.regs[Dr(instr)] == Add16(s.regs[Sr1(instr)], Operand(s, instr))
    ensures t.regs[R_COND] == FlagOf(t.regs[Dr(instr)])
    ensures RegsExcept(s, t, {Dr(instr), R_COND}) && t.mem == s.mem && SameConsole(s, t)
  {
    var dr := Dr(instr);
    var sr1 := Sr1(instr);
    SetReg(s, dr, Add16(s.regs[sr1], Operand(s, instr)))
  }

  /** AND: dr = sr1 & operand, then the flags. */
  function And(s: State, instr: Word): (t: State)
    requires Valid(s)
    ensures Valid(t) && CondIsFlag(t)
    ensures t.regs[Dr(instr)] == And16(s.regs[Sr1(instr)], Operand(s, instr))
    ensures t.regs[R_COND] == FlagOf(t.regs[Dr(instr)])
    ensures RegsExcept(s, t, {Dr(instr), R_COND}) && t.mem == s.mem && SameConsole(s, t)
  {
    var dr := Dr(instr);
    var sr1 := Sr1(instr);
    SetReg(s, dr, And16(s.regs[sr1], Operand(s, instr)))
  }

  /** NOT: dr = the bitwise complement of sr, then the flags. */
  function Not(s: State, instr: Word): (t: State)
    requires Valid(s)
    ensures Valid(t) && CondIsFlag(t)
    ensures t.regs[Dr(instr)] == !s.regs[Sr1(instr)]
    ensures t.regs[R_COND] == FlagOf(t.regs[Dr(instr)])
    ensures RegsExcept(s, t, {Dr(instr), R_COND}) && t.mem == s.mem && SameConsole(s, t)
  {
    SetReg(s, Dr(instr), !s.regs[Sr1(instr)])
  }

  /** A load into `dr` of the word `mem_read(a)` returns; the read may poll the keyboard. */
  function LoadReg(s: State, dr: nat, a: Word): (t: State)
    requires Valid(s) && dr < 8
    ensures Valid(t) && CondIsFlag(t)
    ensures t.regs[dr] == MemRead(s, a).value && t.regs[R_COND] == FlagOf(t.regs[dr])
    ensures RegsExcept(s, t, {dr, R_COND}) && t.run == s.run && t.output == s.output
    ensures t.mem == MemRead(s, a).state.mem && t.input == MemRead(s, a).state.input
    ensures t.ready == MemRead(s, a).state.ready
  {
    var r := MemRead(s, a);
    SetReg(r.state, dr, r.value)
  }

  /**
   * LD: dr = mem_read(PC + pcoffset9), then the flags. Only a load from KBSR touches memory or
   * the console.
   */
  function Ld(s: State, instr: Word): (t: State)
    requires Valid(s)
    ensures Valid(t) && CondIsFlag(t)
    ensures t.regs[Dr(instr)] == MemRead(s, PcRelative(s, instr)).value
    ensures t.regs[R_COND] == FlagOf(t.regs[Dr(instr)]) && RegsExcept(s, t, {Dr(instr), R_COND})
    ensures var r := MemRead(s, PcRelative(s, instr));
      t.mem == r.state.mem && t.input == r.state.input && t.ready == r.state.ready
      && t.run == s.run && t.output == s.output
    ensures PcRelative(s, instr) != MR_KBSR ==> t.mem == s.mem && SameConsole(s, t)
  {
    LoadReg(s, Dr(instr), PcRelative(s, instr))
  }

  /** LDR: dr = mem_read(regs[baseR] + offset6), then the flags. */
  function Ldr(s: State, instr: Word): (t: State)
    requires Valid(s)
    ensures Valid(t) && CondIsFlag(t)
    ensures t.regs[Dr(instr)] == MemRead(s, Add16(s.regs[Sr1(instr)], Offset6(instr))).value
    ensures t.regs[R_COND] == FlagOf(t.regs[Dr(instr)]) && RegsExcept(s, t, {Dr(instr), R_COND})
    ensures var r := MemRead(s, Add16(s.regs[Sr1(instr)], Offset6(instr)));
      t.mem == r.state.mem && t.input == r.state.input && t.ready == r.state.ready
      && t.run == s.run && t.output == s.output
    ensures Add16(s.regs[Sr1(instr)], Offset6(instr)) != MR_KBSR ==> t.mem == s.mem && SameConsole(s, t)
  {
    LoadReg(s, Dr(instr), Add16(s.regs[Sr1(instr)], Offset6(instr)))
  }

  /** LDI: dr = mem_read(mem_read(PC + pcoffset9)), then the flags. */
  function Ldi(s: State, instr: Word): (t: State)
    requires Valid(s)
    ensures Valid(t) && CondIsFlag(t)
    ensures var r := MemRead(s, PcRelative(s, instr));
      t.regs[Dr(instr)] == MemRead(r.state, r.value).value
      && t.regs[R_COND] == FlagOf(t.regs[Dr(instr)]) && RegsExcept(s, t, {Dr(instr), R_COND})
    ensures var r := MemRead(s, PcRelative(s, instr)); var r2 := MemRead(r.state, r.value);
      t.mem == r2.state.mem && t.input == r2.state.input && t.ready == r2.state.ready
      && t.run == s.run && t.output == s.output
  {
    var r := MemRead(s, PcRelative(s, instr));
    LoadReg(r.state, Dr(instr), r.value)
  }

  /** LEA: dr = PC + pcoffset9, then the flags; memory is not read. */
  function Lea(s: State, instr: Word): (t: State)
    requires Valid(s)
    ensures Valid(t) && CondIsFlag(t)
    ensures t.regs[Dr(instr)] == PcRelative(s, instr)
    ensures t.regs[R_COND] == FlagOf(t.regs[Dr(instr)])
    ensures RegsExcept(s, t, {Dr(instr), R_COND}) && t.mem == s.mem && SameConsole(s, t)
  {
    SetReg(s, Dr(instr), PcRelative(s, instr))
  }

  /** ST: mem_write(PC + pcoffset9, regs[sr]); the registers are untouched. */
  function St(s: State, instr: Word): (t: State)
    requires Valid(s)
    ensures Valid(t) && t.regs == s.regs && SameConsole(s, t)
    ensures var a := Addr(PcRelative(s, instr)); t.mem[a] == s.regs[Dr(instr)] && MemExcept(s.mem, t.mem, {a})
  {
    MemWrite(s, PcRelative(s, instr), s.regs[Dr(instr)])
  }

  /** STR: mem_write(regs[baseR] + offset6, regs[sr]); the registers are untouched. */
  function Str(s: State, instr: Word): (t: State)
    requires Valid(s)
    ensures Valid(t) && t.regs == s.regs && SameConsole(s, t)
    ensures var a := Addr(Add16(s.regs[Sr1(instr)], Offset6(instr)));
      t.mem[a] == s.regs[Dr(instr)] && MemExcept(s.mem, t.mem, {a})
  {
    MemWrite(s, Add16(s.regs[Sr1(instr)], Offset6(instr)), s.regs[Dr(instr)])
  }

  /** STI: mem_write(mem_read(PC + pcoffset9), regs[sr]); the registers are untouched. */
  function Sti(s: State, instr: Word): (t: State)
    requires Valid(s)
    ensures Valid(t) && t.regs == s.regs && t.run == s.run && t.output == s.output
    ensures var r := MemRead(s, PcRelative(s, instr));
      t.mem[Addr(r.value)] == s.regs[Dr(instr)] && MemExcept(r.state.mem, t.mem, {Addr(r.value)})
      && t.input == r.state.input && t.ready == r.state.ready
  {
    var r := MemRead(s, PcRelative(s, instr));
    MemWrite(r.state, r.value, s.regs[Dr(instr)])
  }

  /**
   * JSR / JSRR: R7 = PC, then PC += pcoffset11 (bit 11 set) or PC = regs[baseR]. R7 is written
   * before the base register is read, so `JSRR R7` jumps to the old PC.
   */
  function Jsr(s: State, instr: Word): (t: State)
    requires Valid(s)
    ensures Valid(t) && t.regs[R_R7] == s.regs[R_PC]
    ensures LongFlag(instr) ==> t.regs[R_PC] == Add16(s.regs[R_PC], PcOffset11(instr))
    ensures !LongFlag(instr) && Sr1(instr) != R_R7 ==> t.regs[R_PC] == s.regs[Sr1(instr)]
    ensures !LongFlag(instr) && Sr1(instr) == R_R7 ==> t.regs[R_PC] == s.regs[R_PC]
    ensures RegsExcept(s, t, {R_R7, R_PC}) && t.mem == s.mem && SameConsole(s, t)
  {
    var r1 := Sr1(instr);
    var s1 := s.(regs := s.regs[R_R7 := s.regs[R_PC]]);
    if LongFlag(instr) then s1.(regs := s1.regs[R_PC := Add16(s1.regs[R_PC], PcOffset11(instr))])
    else s1.(regs := s1.regs[R_PC := s1.regs[r1]])
  }

  /** JMP: PC = regs[baseR]. */
  function Jmp(s: State, instr: Word): (t: State)
    requires Valid(s)
    ensures Valid(t) && t.regs[R_PC] == s.regs[Sr1(instr)]
    ensures RegsExcept(s, t, {R_PC}) && t.mem == s.mem && SameConsole(s, t)
  {
    s.(regs := s.regs[R_PC := s.regs[Sr1(instr)]])
  }

  // ---------------------------------------------------------------- traps

  /** The bytes of an ASCII string. */
  function Ascii(text: string): (b: seq<Byte>)
    ensures |b| == |text|
  {
    seq(|text|, i requires 0 <= i < |text| => ((text[i] as int) % 256) as Byte)
  }

  /** What `puts("HALT")` writes: the text and a newline. */
  const HALT_TEXT: seq<Byte> := Ascii("HALT\n")
  /** The prompt the IN trap prints before reading. */
  const PROMPT: seq<Byte> := Ascii("Enter a character: ")

  /**
   * The characters PUTS writes for the string at `p`: the low byte of each word up to the first
   * zero word. The scan stops at the end of memory if there is no terminator.
   */
  function PutsText(mem: seq<Word>, p: nat): seq<Byte>
    decreases |mem| - p
  {
    if p >= |mem| || mem[p] == 0 then [] else [Lo(mem[p])] + PutsText(mem, p + 1)
  }

  /** The characters one word of a PUTSP string packs: its low byte, then its high byte if nonzero. */
  function Packed(w: Word): (b: seq<Byte>)
    ensures 1 <= |b| <= 2 && b[0] == Lo(w)
    ensures |b| == 2 <==> Hi(w) != 0
    ensures |b| == 2 ==> b[1] == Hi(w)
  {
    [Lo(w)] + if Hi(w) != 0 then [Hi(w)] else []
  }

  /** The characters PUTSP writes for the packed string at `p`, with the same scan as PUTS. */
  function PutspText(mem: seq<Word>, p: nat): seq<Byte>
    decreases |mem| - p
  {
    if p >= |mem| || mem[p] == 0 then [] else Packed(mem[p]) + PutspText(mem, p + 1)
  }

  /** Whether a trap vector is one of the six the handler serves. */
  predicate KnownTrap(v: Word)
  {
    TRAP_GETC <= v <= TRAP_HALT
  }

  /** TRAP: the service selected by bits 7..0. Other vectors fall through the switch. */
  function Trap(s: State, instr: Word): (t: State)
    requires Valid(s)
    ensures Valid(t) && t.mem == s.mem
    ensures CondIsFlag(s) ==> CondIsFlag(t)
    ensures !KnownTrap(TrapVector(instr)) ==> t == s
    ensures TrapVector(instr) == TRAP_GETC ==>
      t.regs[R_R0] == GetcharWord(s.input) && RegsExcept(s, t, {R_R0})
      && t.input == Tail(s.input) && t.output == s.output && t.ready == s.ready && t.run == s.run
    ensures TrapVector(instr) == TRAP_OUT ==>
      t.output == s.output + [Lo(s.regs[R_R0])] && t.regs == s.regs
      && t.input == s.input && t.ready == s.ready && t.run == s.run
    ensures TrapVector(instr) == TRAP_PUTS ==>
      t.output == s.output + PutsText(s.mem, Addr(s.regs[R_R0])) && t.regs == s.regs
      && t.input == s.input && t.ready == s.ready && t.run == s.run
    ensures TrapVector(instr) == TRAP_IN ==>
      t.output == s.output + PROMPT + [GetcharByte(s.input)]
      && t.regs[R_R0] == CharToWord(GetcharByte(s.input)) && t.regs[R_COND] == FlagOf(t.regs[R_R0])
      && RegsExcept(s, t, {R_R0, R_COND})
      && t.input == Tail(s.input) && t.ready == s.ready && t.run == s.run
    ensures TrapVector(instr) == TRAP_PUTSP ==>
      t.output == s.output + PutspText(s.mem, Addr(s.regs[R_R0])) && t.regs == s.regs
      && t.input == s.input && t.ready == s.ready && t.run == s.run
    ensures TrapVector(instr) == TRAP_HALT ==>
      !t.run && t.output == s.output + HALT_TEXT && t.regs == s.regs
      && t.input == s.input && t.ready == s.ready
  {
    var v := TrapVector(instr);
    if v == TRAP_GETC then
      s.(regs := s.regs[R_R0 := GetcharWord(s.input)], input := Tail(s.input))
    else if v == TRAP_OUT then
      s.(output := s.output + [Lo(s.regs[R_R0])])
    else if v == TRAP_PUTS then
      s.(output := s.output + PutsText(s.mem, Addr(s.regs[R_R0])))
    else if v == TRAP_IN then
      var c := GetcharByte(s.input);
      var s1 := s.(output := s.output + PROMPT + [c], input := Tail(s.input));
      SetReg(s1, R_R0, CharToWord(c))
    else if v == TRAP_PUTSP then
      s.(output := s.output + PutspText(s.mem, Addr(s.regs[R_R0])))
    else if v == TRAP_HALT then
      s.(output := s.output + HALT_TEXT, run := false)
    else
      s
  }

  // ---------------------------------------------------------------- the execution loop

  /** The state after an instruction fetch, and the instruction fetched. */
  datatype Fetched = Fetched(state: State, instr: Word)

  /**
   * `memory[regs[R_PC]++]`: the word at PC, read directly (never through `mem_read`, so even
   * at KBSR it does not poll), with PC incremented modulo 2^16.
   */
  function Fetch(s: State): (f: Fetched)
    requires Valid(s)
    ensures Valid(f.state) && f.instr == s.mem[Addr(s.regs[R_PC])]
    ensures f.state.regs[R_PC] == Add16(s.regs[R_PC], 1)
    ensures RegsExcept(s, f.state, {R_PC}) && f.state.mem == s.mem && SameConsole(s, f.state)
  {
    Fetched(s.(regs := s.regs[R_PC := Add16(s.regs[R_PC], 1)]), s.mem[Addr(s.regs[R_PC])])
  }

  /** One dispatch: the handler of the decoded opcode, or a fault for RTI and RES (`abort()`). */
  datatype StepResult = Next(state: State) | Fault(state: State, opcode: Word)

  /** Dispatch of a fetched instruction `instr` in the state `s` after the fetch. */
  function Dispatch(s: State, instr: Word): (r: StepResult)
    requires Valid(s)
    ensures Valid(r.state)
    ensures r.Fault? <==> Decode(instr) == RTI || Decode(instr) == RES
    ensures r.Fault? ==> r.state == s && r.opcode == instr >> 12
    ensures CondIsFlag(s) ==> CondIsFlag(r.state)
  {
    match Decode(instr)
    case BR => Next(Br(s, instr))
    case ADD => Next(Add(s, instr))
    case LD => Next(Ld(s, instr))
    case ST => Next(St(s, instr))
    case JSR => Next(Jsr(s, instr))
    case AND => Next(And(s, instr))
    case LDR => Next(Ldr(s, instr))
    case STR => Next(Str(s, instr))
    case RTI => Fault(s, instr >> 12)
    case NOT => Next(Not(s, instr))
    case LDI => Next(Ldi(s, instr))
    case STI => Next(Sti(s, instr))
    case JMP => Next(Jmp(s, instr))
    case RES => Fault(s, instr >> 12)
    case LEA => Next(Lea(s, instr))
    case TRAP => Next(Trap(s, instr))
  }

  /** One iteration of the `while (run)` loop: fetch, then dispatch. */
  function Step(s: State): (r: StepResult)
    requires Valid(s)
    ensures Valid(r.state)
    ensures CondIsFlag(s) ==> CondIsFlag(r.state)
    ensures r.Fault? ==> r.state.run == s.run
  {
    var f := Fetch(s);
    Dispatch(f.state, f.instr)
  }

  /** How the loop ended: HALT cleared `run`, `abort()` on RTI/RES, or the step budget ran out. */
  datatype Exit = Halted | Aborted(opcode: Word) | OutOfFuel

  datatype Outcome = Outcome(exit: Exit, state: State)

  /**
   * What the loop relies on of its step function: it is defined on every valid state, keeps
   * the state valid and COND a flag, and does not clear `run` when it faults.
   */
  ghost predicate Closed(step: State --> StepResult)
  {
    forall t {:trigger step.requires(t)} :: Valid(t) ==>
      step.requires(t) && Valid(step(t).state)
      && (CondIsFlag(t) ==> CondIsFlag(step(t).state))
      && (step(t).Fault? ==> step(t).state.run == t.run)
  }

  /** `Step` is such a step function. */
  lemma StepClosed()
    ensures Closed(Step)
  {
    forall t | Valid(t)
      ensures Valid(Step(t).state) && (CondIsFlag(t) ==> CondIsFlag(Step(t).state))
      ensures Step(t).Fault? ==> Step(t).state.run == t.run
    {
    }
  }

  /** The `while (run)` loop driven by `step`, for at most `fuel` iterations. */
  function Loop(step: State --> StepResult, s: State, fuel: nat): (o: Outcome)
    requires Closed(step) && Valid(s)
    ensures Valid(o.state)
    ensures o.exit == Halted <==> !o.state.run
    ensures CondIsFlag(s) ==> CondIsFlag(o.state)
    decreases fuel
  {
    if !s.run then Outcome(Halted, s)
    else if fuel == 0 then Outcome(OutOfFuel, s)
    else
      match step(s)
      case Fault(t, op) => Outcome(Aborted(op), t)
      case Next(t) => Loop(step, t, fuel - 1)
  }

  /** The `while (run)` loop of the machine, for at most `fuel` iterations. */
  function Run(s: State, fuel: nat): (o: Outcome)
    requires Valid(s)
    ensures Valid(o.state)
    ensures o.exit == Halted <==> !o.state.run
    ensures CondIsFlag(s) ==> CondIsFlag(o.state)
  {
    StepClosed();
    Loop(Step, s, fuel)
  }

  /** The state `execute` enters its loop with: COND = FL_ZRO, PC = PC_START. */
  function Start(s: State): (t: State)
    requires Valid(s)
    ensures Valid(t) && CondIsFlag(t)
    ensures t.regs[R_COND] == FL_ZRO && t.regs[R_PC] == PC_START
    ensures RegsExcept(s, t, {R_COND, R_PC}) && t.mem == s.mem && SameConsole(s, t)
  {
    s.(regs := s.regs[R_COND := FL_ZRO][R_PC := PC_START])
  }

  /** `execute()`, for at most `fuel` instructions. */
  function Execute(s: State, fuel: nat): (o: Outcome)
    requires Valid(s)
    ensures Valid(o.state) && CondIsFlag(o.state)
    ensures o.exit == Halted <==> !o.state.run
  {
    Run(Start(s), fuel)
  }
}
