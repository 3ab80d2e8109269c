/**
 * Properties of the reference semantics that relate several operations, or a handler to an
 * independent description of what the instruction means.
 */
module Properties {
  import opened Bits
  import opened Isa
  import opened Semantics

  // ---------------------------------------------------------------- BR

  /**
   * With COND holding one flag, BR branches exactly when the instruction's n, z or p bit selects
   * the flag COND holds.
   */
  lemma BranchTaken(s: State, instr: Word)
    requires Valid(s) && CondIsFlag(s)
    ensures CondMask(instr) & s.regs[R_COND] != 0 <==>
      (Bit(instr, 11) && s.regs[R_COND] == FL_NEG)
      || (Bit(instr, 10) && s.regs[R_COND] == FL_ZRO)
      || (Bit(instr, 9) && s.regs[R_COND] == FL_POS)
  {
  }

  /** BRnzp is an unconditional jump, and BR with an empty mask never branches. */
  lemma BranchAlwaysOrNever(s: State, instr: Word)
    requires Valid(s) && CondIsFlag(s)
    ensures CondMask(instr) == 7 ==> Br(s, instr).regs[R_PC] == Add16(s.regs[R_PC], PcOffset9(instr))
    ensures CondMask(instr) == 0 ==> Br(s, instr) == s
  {
  }

  // ---------------------------------------------------------------- ADD / AND

  /** `ADD dr, sr1, #imm5` with sr1 holding zero loads the sign-extended immediate. */
  lemma AddImmediateFromZero(s: State, instr: Word)
    requires Valid(s) && ImmFlag(instr) && s.regs[Sr1(instr)] == 0
    ensures Add(s, instr).regs[Dr(instr)] == Imm5(instr)
  {
  }

  /** `AND dr, sr1, #0` clears dr and sets the zero flag, whatever sr1 held. */
  lemma AndZeroClears(s: State, instr: Word)
    requires Valid(s) && ImmFlag(instr) && instr & 0x1F == 0
    ensures Add(s, instr).regs[Dr(instr)] == s.regs[Sr1(instr)]
    ensures And(s, instr).regs[Dr(instr)] == 0 && And(s, instr).regs[R_COND] == FL_ZRO
  {
  }

  /** NOT applied twice to the same register gives the register back. */
  lemma NotTwice(s: State, instr: Word)
    requires Valid(s) && Dr(instr) == Sr1(instr)
    ensures Not(Not(s, instr), instr).regs[Dr(instr)] == s.regs[Dr(instr)]
  {
  }

  // ---------------------------------------------------------------- loads and stores

  /**
   * LDI is a double indirection through the already-incremented PC: when neither the pointer
   * cell nor the address it holds is the keyboard status register, dr receives
   * `mem[mem[PC + pcoffset9]]` and nothing but dr and COND changes.
   */
  lemma LdiIndirect(s: State, instr: Word)
    requires Valid(s)
    requires PcRelative(s, instr) != MR_KBSR && s.mem[Addr(PcRelative(s, instr))] != MR_KBSR
    ensures var t := Ldi(s, instr);
      t.regs[Dr(instr)] == s.mem[Addr(s.mem[Addr(PcRelative(s, instr))])]
      && t.regs[R_COND] == FlagOf(t.regs[Dr(instr)])
      && RegsExcept(s, t, {Dr(instr), R_COND}) && t.mem == s.mem && SameConsole(s, t)
  {
  }

  /**
   * STI stores through the pointer at PC + pcoffset9: when that cell is not the keyboard status
   * register, the word at `mem[PC + pcoffset9]` receives regs[sr] and only that cell changes.
   */
  lemma StiIndirect(s: State, instr: Word)
    requires Valid(s) && PcRelative(s, instr) != MR_KBSR
    ensures var t := Sti(s, instr); var a := Addr(s.mem[Addr(PcRelative(s, instr))]);
      t.mem[a] == s.regs[Dr(instr)] && MemExcept(s.mem, t.mem, {a})
      && t.regs == s.regs && SameConsole(s, t)
  {
  }

  /** LD reads the cell LEA computes the address of, and ST writes it. */
  lemma SameAddressing(s: State, instr: Word)
    requires Valid(s) && PcRelative(s, instr) != MR_KBSR
    ensures Ld(s, instr).regs[Dr(instr)] == s.mem[Addr(Lea(s, instr).regs[Dr(instr)])]
    ensures St(s, instr).mem[Addr(Lea(s, instr).regs[Dr(instr)])] == s.regs[Dr(instr)]
  {
  }

  /** A load of a word just stored at a non-device address reads it back. */
  lemma StoreThenLoad(s: State, a: Word, v: Word)
    requires Valid(s) && a != MR_KBSR
    ensures MemRead(MemWrite(s, a, v), a) == Read(MemWrite(s, a, v), v)
  {
  }

  // ---------------------------------------------------------------- keyboard

  /**
   * Reading KBSR never blocks: it consumes one answer of the key oracle, and the status word it
   * returns is 0x8000 exactly when a key was ready, in which case KBDR holds the next character
   * and that character is consumed.
   */
  lemma PollConsistent(s: State)
    requires Valid(s)
    ensures var r := MemRead(s, MR_KBSR);
      r.state.ready == Tail(s.ready)
      && (r.value == 0x8000 <==> KeyReady(s))
      && (KeyReady(s) ==> r.state.mem[Addr(MR_KBDR)] == GetcharWord(s.input)
                          && r.state.input == Tail(s.input))
      && (!KeyReady(s) ==> r.value == 0 && r.state.input == s.input)
  {
  }

  /** Only the status register polls: reading KBDR is a plain load. */
  lemma DataRegisterDoesNotPoll(s: State)
    requires Valid(s)
    ensures MemRead(s, MR_KBDR) == Read(s, s.mem[Addr(MR_KBDR)])
  {
  }

  // ---------------------------------------------------------------- JSR / JMP

  /** RET (JMP R7) after JSR or JSRR returns to the instruction after the call. */
  lemma CallReturn(s: State, call: Word, ret: Word)
    requires Valid(s) && Sr1(ret) == R_R7
    ensures Jmp(Jsr(s, call), ret).regs[R_PC] == s.regs[R_PC]
  {
  }

  // ---------------------------------------------------------------- PUTS / PUTSP

  /** There is no zero word in `mem[p..z]`. */
  predicate NoTerminator(mem: seq<Word>, p: nat, z: nat)
    requires p <= z <= |mem|
  {
    forall k :: p <= k < z ==> mem[k] != 0
  }

  /** `z` ends the string at `p`: no zero before it, and a zero word or the end of memory at it. */
  predicate StringEnd(mem: seq<Word>, p: nat, z: nat)
  {
    p <= z <= |mem| && NoTerminator(mem, p, z) && (z == |mem| || mem[z] == 0)
  }

  /**
   * PUTS writes one character per word of the string: the low byte of each word from `p` up to
   * its end `z`, and nothing else.
   */
  lemma {:induction false} PutsTextIsLowBytes(mem: seq<Word>, p: nat, z: nat)
    requires StringEnd(mem, p, z)
    ensures |PutsText(mem, p)| == z - p
    ensures forall k :: 0 <= k < z - p ==> PutsText(mem, p)[k] == Lo(mem[p + k])
    decreases z - p
  {
    if p < z {
      PutsTextIsLowBytes(mem, p + 1, z);
    }
  }

  /**
   * PUTSP writes between one and two characters per word of the string, so at least as many as
   * PUTS and at most twice as many.
   */
  lemma {:induction false} PutspTextLength(mem: seq<Word>, p: nat, z: nat)
    requires StringEnd(mem, p, z)
    ensures z - p <= |PutspText(mem, p)| <= 2 * (z - p)
    decreases z - p
  {
    if p < z {
      PutspTextLength(mem, p + 1, z);
    }
  }

  /** On a string whose words all have a zero high byte, PUTSP writes what PUTS writes. */
  lemma {:induction false} PutspOfNarrowString(mem: seq<Word>, p: nat, z: nat)
    requires StringEnd(mem, p, z)
    requires forall k :: p <= k < z ==> Hi(mem[k]) == 0
    ensures PutspText(mem, p) == PutsText(mem, p)
    decreases z - p
  {
    if p < z {
      PutspOfNarrowString(mem, p + 1, z);
    }
  }

  // ---------------------------------------------------------------- the loop

  /**
   * The routing of `execute`'s `switch`: the fetched word runs the handler its opcode names, on
   * the state after the fetch; RTI and RES fault with their opcode.
   */
  lemma StepRoutes(s: State)
    requires Valid(s)
    ensures var f := Fetch(s); var i := f.instr; var t := f.state;
      match Decode(i)
      case BR => Step(s) == Next(Br(t, i))
      case ADD => Step(s) == Next(Add(t, i))
      case LD => Step(s) == Next(Ld(t, i))
      case ST => Step(s) == Next(St(t, i))
      case JSR => Step(s) == Next(Jsr(t, i))
      case AND => Step(s) == Next(And(t, i))
      case LDR => Step(s) == Next(Ldr(t, i))
      case STR => Step(s) == Next(Str(t, i))
      case RTI => Step(s) == Fault(t, i >> 12)
      case NOT => Step(s) == Next(Not(t, i))
      case LDI => Step(s) == Next(Ldi(t, i))
      case STI => Step(s) == Next(Sti(t, i))
      case JMP => Step(s) == Next(Jmp(t, i))
      case RES => Step(s) == Fault(t, i >> 12)
      case LEA => Step(s) == Next(Lea(t, i))
      case TRAP => Step(s) == Next(Trap(t, i))
  {
  }

  /** A step that does not fault is one iteration of the loop: the rest runs from its result. */
  lemma RunNext(s: State, n: nat)
    requires Valid(s) && s.run && Step(s).Next?
    ensures Run(s, n + 1) == Run(Step(s).state, n)
  {
  }

  /** A step that faults ends the loop with its opcode, in the state the fault left. */
  lemma RunFault(s: State, n: nat)
    requires Valid(s) && s.run && Step(s).Fault?
    ensures Run(s, n + 1) == Outcome(Aborted(Step(s).opcode), Step(s).state)
  {
  }

  /** Once a loop has ended, a larger budget changes nothing: the outcome is final. */
  lemma {:induction false} LoopFinal(step: State --> StepResult, s: State, a: nat, b: nat)
    requires Closed(step) && Valid(s) && Loop(step, s, a).exit != OutOfFuel && a <= b
    ensures Loop(step, s, b) == Loop(step, s, a)
    decreases a
  {
    if s.run {
      var r := step(s);
      if r.Next? {
        LoopFinal(step, r.state, a - 1, b - 1);
      }
    }
  }

  /** A loop that ran out of budget after `a` steps goes on from where it stopped. */
  lemma {:induction false} LoopResume(step: State --> StepResult, s: State, a: nat, b: nat)
    requires Closed(step) && Valid(s) && Loop(step, s, a).exit == OutOfFuel
    ensures Loop(step, s, a + b) == Loop(step, Loop(step, s, a).state, b)
    decreases a
  {
    if a > 0 {
      var r := step(s);
      if r.Next? {
        LoopResume(step, r.state, a - 1, b);
      }
    }
  }

  /** The machine's loop, once it has ended, ends the same way with any larger budget. */
  lemma RunFinal(s: State, a: nat, b: nat)
    requires Valid(s) && Run(s, a).exit != OutOfFuel && a <= b
    ensures Run(s, b) == Run(s, a)
  {
    StepClosed();
    LoopFinal(Step, s, a, b);
  }

  /** Running the machine for `a + b` steps, when `a` steps do not end it, is `b` more steps. */
  lemma RunResume(s: State, a: nat, b: nat)
    requires Valid(s) && Run(s, a).exit == OutOfFuel
    ensures Run(s, a + b) == Run(Run(s, a).state, b)
  {
    StepClosed();
    LoopResume(Step, s, a, b);
  }

  /**
   * An instruction whose opcode is TRAP with vector 0x25 ends the loop: it writes "HALT\n",
   * clears `run`, and no further instruction is fetched whatever the budget.
   */
  lemma HaltStops(s: State, fuel: nat)
    requires Valid(s) && s.run
    requires Decode(s.mem[Addr(s.regs[R_PC])]) == TRAP
    requires TrapVector(s.mem[Addr(s.regs[R_PC])]) == TRAP_HALT
    ensures var o := Run(s, fuel + 1);
      o.exit == Halted && o.state.output == s.output + HALT_TEXT
      && o.state.mem == s.mem && o.state.regs == Fetch(s).state.regs
  {
    var f := Fetch(s);
    var t := Trap(f.state, f.instr);
    assert Step(s) == Next(t);
    StepClosed();
    assert Loop(Step, t, fuel) == Outcome(Halted, t);
  }

  /** A fetch of RTI or RES ends the loop with that opcode as the fault, before any effect. */
  lemma ReservedAborts(s: State, fuel: nat)
    requires Valid(s) && s.run
    requires Decode(s.mem[Addr(s.regs[R_PC])]) == RTI || Decode(s.mem[Addr(s.regs[R_PC])]) == RES
    ensures Run(s, fuel + 1) ==
      Outcome(Aborted(s.mem[Addr(s.regs[R_PC])] >> 12), Fetch(s).state)
  {
  }
}
