/**
 * The instruction set of the machine in src/vm.h: its constants (registers, opcodes, condition
 * flags, trap vectors, device registers) and the decoding of the fixed bit fields of an
 * instruction word.
 */
module Isa {
  import opened Bits

  /** The number of memory words, `MEMORY_MAX`. */
  const MEMORY_MAX: nat := 0x1_0000

  /** The memory cell a 16-bit address names: every address is in range. */
  function Addr(a: Word): (i: nat)
    ensures i < MEMORY_MAX
  {
    a as nat
  }

  /** The address `execute` starts at, `PC_START`. */
  const PC_START: Word := 0x3000

  /** Indices into `regs`: R0..R7, then the program counter and the condition register. */
  const R_R0: nat := 0
  const R_R7: nat := 7
  const R_PC: nat := 8
  const R_COND: nat := 9
  const R_COUNT: nat := 10

  /** The three condition flags. */
  const FL_POS: Word := 1
  const FL_ZRO: Word := 2
  const FL_NEG: Word := 4

  /** The trap vectors the TRAP handler serves. */
  const TRAP_GETC: Word := 0x20
  const TRAP_OUT: Word := 0x21
  const TRAP_PUTS: Word := 0x22
  const TRAP_IN: Word := 0x23
  const TRAP_PUTSP: Word := 0x24
  const TRAP_HALT: Word := 0x25

  /** The memory-mapped keyboard status and data registers. */
  const MR_KBSR: Word := 0xFE00
  const MR_KBDR: Word := 0xFE02

  /** The sixteen opcodes, in the order of their numeric values 0..15. */
  datatype Opcode = BR | ADD | LD | ST | JSR | AND | LDR | STR | RTI | NOT | LDI | STI | JMP | RES | LEA | TRAP

  /** The numeric value of an opcode in the `instructions` enumeration. */
  function Code(op: Opcode): Word
  {
    match op
    case BR => 0
    case ADD => 1
    case LD => 2
    case ST => 3
    case JSR => 4
    case AND => 5
    case LDR => 6
    case STR => 7
    case RTI => 8
    case NOT => 9
    case LDI => 10
    case STI => 11
    case JMP => 12
    case RES => 13
    case LEA => 14
    case TRAP => 15
  }

  /** The opcode of an instruction: the one whose value is `instr >> 12`. */
  function Decode(instr: Word): (op: Opcode)
    ensures Code(op) == instr >> 12
  {
    var v := instr >> 12;
    if v == 0 then BR else if v == 1 then ADD else if v == 2 then LD else if v == 3 then ST
    else if v == 4 then JSR else if v == 5 then AND else if v == 6 then LDR else if v == 7 then STR
    else if v == 8 then RTI else if v == 9 then NOT else if v == 10 then LDI else if v == 11 then STI
    else if v == 12 then JMP else if v == 13 then RES else if v == 14 then LEA else TRAP
  }

  /** Distinct opcodes have distinct values, so `Decode` picks exactly one handler. */
  lemma CodeInjective(a: Opcode, b: Opcode)
    requires Code(a) == Code(b)
    ensures a == b
  {
  }

  /** Bits 11..9: the destination register, or the source register of a store. */
  function Dr(instr: Word): (r: nat)
    ensures r < 8
  {
    ((instr >> 9) & 0x7) as nat
  }

  /** Bits 8..6: the first source register, or the base register of LDR, STR, JMP and JSRR. */
  function Sr1(instr: Word): (r: nat)
    ensures r < 8
  {
    ((instr >> 6) & 0x7) as nat
  }

  /** Bits 2..0: the second source register of ADD and AND in register mode. */
  function Sr2(instr: Word): (r: nat)
    ensures r < 8
  {
    (instr & 0x7) as nat
  }

  /** Bit 5: ADD and AND take the immediate operand. */
  predicate ImmFlag(instr: Word)
  {
    (instr >> 5) & 0x1 == 1
  }

  /** Bit 11: JSR with a PC-relative target rather than JSRR. */
  predicate LongFlag(instr: Word)
  {
    (instr >> 11) & 1 == 1
  }

  /** Bits 11..9 of BR: the n, z and p condition mask. */
  function CondMask(instr: Word): (m: Word)
    ensures m < 8
  {
    (instr >> 9) & 0x7
  }

  /** Bits 7..0 of TRAP: the trap vector. */
  function TrapVector(instr: Word): (v: Word)
    ensures v < 0x100
  {
    instr & 0xFF
  }

  /**
   * imm5, sign-extended: the low five bits are those of the instruction and the upper eleven copy
   * bit 4, so the word stands for the field read in two's complement (the field, or the field
   * minus 2^5, modulo 2^16).
   */
  function Imm5(instr: Word): (r: Word)
    ensures r & 0x1F == instr & 0x1F
    ensures r >> 5 == if Bit(instr, 4) then 0x7FF else 0
    ensures r == if Bit(instr, 4) then (instr & 0x1F) - 0x20 else instr & 0x1F
  {
    SignExtend(instr & 0x1F, 5)
  }

  /** offset6 of LDR and STR, sign-extended: it stands for -32..31. */
  function Offset6(instr: Word): (r: Word)
    ensures r & 0x3F == instr & 0x3F
    ensures r >> 6 == if Bit(instr, 5) then 0x3FF else 0
    ensures r == if Bit(instr, 5) then (instr & 0x3F) - 0x40 else instr & 0x3F
  {
    SignExtend(instr & 0x3F, 6)
  }

  /** pcoffset9 of BR, LD, ST, LDI, STI and LEA, sign-extended: it stands for -256..255. */
  function PcOffset9(instr: Word): (r: Word)
    ensures r & 0x1FF == instr & 0x1FF
    ensures r >> 9 == if Bit(instr, 8) then 0x7F else 0
    ensures r == if Bit(instr, 8) then (instr & 0x1FF) - 0x200 else instr & 0x1FF
  {
    SignExtend(instr & 0x1FF, 9)
  }

  /** pcoffset11 of JSR, sign-extended: it stands for -1024..1023. */
  function PcOffset11(instr: Word): (r: Word)
    ensures r & 0x7FF == instr & 0x7FF
    ensures r >> 11 == if Bit(instr, 10) then 0x1F else 0
    ensures r == if Bit(instr, 10) then (instr & 0x7FF) - 0x800 else instr & 0x7FF
  {
    SignExtend(instr & 0x7FF, 11)
  }

  /**
   * `(uint16_t)c` for a `char c` holding byte `b`, where `char` is signed (as on x86-64):
   * the byte sign-extended to a word, which stands for the `signed char` value -128..127.
   */
  function CharToWord(b: Byte): (r: Word)
    ensures Lo(r) == b
    ensures Hi(r) == if b >= 0x80 then 0xFF else 0
    ensures r == if b >= 0x80 then (b as Word) - 0x100 else b as Word
  {
    SignExtend(b as Word, 8)
  }

  // ---------------------------------------------------------------- values of the fields

  /** As a signed number, imm5 is the five-bit field read in two's complement: -16..15. */
  lemma Imm5Value(instr: Word)
    ensures Signed(Imm5(instr)) ==
      if Bit(instr, 4) then (instr & 0x1F) as int - 0x20 else (instr & 0x1F) as int
  {
  }

  /** offset6 is the six-bit field in two's complement: -32..31. */
  lemma Offset6Value(instr: Word)
    ensures Signed(Offset6(instr)) ==
      if Bit(instr, 5) then (instr & 0x3F) as int - 0x40 else (instr & 0x3F) as int
  {
  }

  /** pcoffset9 is the nine-bit field in two's complement: -256..255. */
  lemma PcOffset9Value(instr: Word)
    ensures Signed(PcOffset9(instr)) ==
      if Bit(instr, 8) then (instr & 0x1FF) as int - 0x200 else (instr & 0x1FF) as int
  {
  }

  /** pcoffset11 is the eleven-bit field in two's complement: -1024..1023. */
  lemma PcOffset11Value(instr: Word)
    ensures Signed(PcOffset11(instr)) ==
      if Bit(instr, 10) then (instr & 0x7FF) as int - 0x800 else (instr & 0x7FF) as int
  {
  }

  /** A character read by IN keeps its `signed char` value in R0. */
  lemma CharToWordValue(b: Byte)
    ensures Signed(CharToWord(b)) == if b >= 0x80 then b as int - 0x100 else b as int
  {
  }
}
