/**
 * Concrete programs run on the model: whole images loaded into a fresh machine and executed,
 * and single instructions that show the quirks of the handlers.
 */
module Scenarios {
  import opened Bits
  import opened Isa
  import opened Semantics
  import Loader
  import Properties
  import Machine

  /** Origin 0x3000, then `ADD R0, R0, #0` and `TRAP x25`. */
  const ADD_HALT: seq<Byte> := [0x30, 0x00, 0x10, 0x20, 0xF0, 0x25]

  /** Origin 0x3000, then `LEA R0, #1`, `STR R1, R0, #0` and `TRAP x25`. */
  const LEA_STR_HALT: seq<Byte> := [0x30, 0x00, 0xE0, 0x01, 0x72, 0x00, 0xF0, 0x25]

  /** A fresh machine with the image `bytes` loaded. */
  function Loaded(bytes: seq<Byte>, input: seq<Byte>, ready: seq<bool>): (s: State)
    ensures Valid(s) && s.run && s.output == [] && s.input == input && s.ready == ready
    ensures forall i :: 0 <= i < R_COUNT ==> s.regs[i] == 0
  {
    var s0 := Init(input, ready);
    s0.(mem := Loader.LoadImage(s0.mem, bytes))
  }

  /** Serialising a word in front of others puts its two bytes in front. */
  lemma SerializeCons(w: Word, ws: seq<Word>)
    ensures Loader.Serialize([w] + ws) == [Hi(w), Lo(w)] + Loader.Serialize(ws)
  {
    assert ([w] + ws)[1..] == ws;
  }

  /** The image bytes of a program, one word at a time. */
  lemma ImageBytes(origin: Word, ws: seq<Word>)
    ensures ws == [] ==> Loader.Image(origin, ws) == [Hi(origin), Lo(origin)]
    ensures ws != [] ==>
              Loader.Image(origin, ws) == [Hi(origin), Lo(origin)] + Loader.Image(ws[0], ws[1..])
  {
    SerializeCons(origin, ws);
    if ws != [] {
      assert ws == [ws[0]] + ws[1..];
    }
  }

  /** Loading writes the payload words from the origin and nothing else. */
  lemma AddHaltImage(input: seq<Byte>, ready: seq<bool>)
    ensures var s := Loaded(ADD_HALT, input, ready);
      s.mem[0x3000] == 0x1020 && s.mem[0x3001] == 0xF025
      && forall a :: 0 <= a < MEMORY_MAX && a != 0x3000 && a != 0x3001 ==> s.mem[a] == 0
  {
    Loader.LoadOfImage(Init(input, ready).mem, 0x3000, [0x1020, 0xF025]);
    ImageBytes(0x3000, [0x1020, 0xF025]);
    ImageBytes(0x1020, [0xF025]);
    ImageBytes(0xF025, []);
  }

  /** `ADD R0, R0, #0` at PC with R0 = 0: R0 stays 0, the zero flag is set, PC moves on. */
  lemma AddStep(s: State) returns (t: State)
    requires Valid(s) && s.run && s.mem[Addr(s.regs[R_PC])] == 0x1020 && s.regs[R_R0] == 0
    ensures Step(s) == Next(t) && Valid(t) && t.run
    ensures t.regs[R_R0] == 0 && t.regs[R_COND] == FL_ZRO && t.regs[R_PC] == Add16(s.regs[R_PC], 1)
    ensures t.mem == s.mem && t.output == s.output
  {
    var f := Fetch(s);
    assert Decode(f.instr) == ADD && Dr(f.instr) == 0 && Sr1(f.instr) == 0 && ImmFlag(f.instr);
    assert Imm5(f.instr) == 0;
    t := Add(f.state, f.instr);
  }

  /**
   * After `execute`, the program "ADD R0, R0, #0; HALT" has halted with R0 = 0 and the zero flag
   * set, having printed "HALT\n"; two instructions were executed.
   */
  lemma AddHaltRuns(input: seq<Byte>, ready: seq<bool>)
    ensures var o := Execute(Loaded(ADD_HALT, input, ready), 2);
      o.exit == Halted && o.state.regs[R_R0] == 0 && o.state.regs[R_COND] == FL_ZRO
      && o.state.regs[R_PC] == 0x3002 && o.state.output == HALT_TEXT
  {
    var s := Loaded(ADD_HALT, input, ready);
    AddHaltImage(input, ready);
    var s1 := Start(s);
    var s2 := AddStep(s1);
    assert s2.mem[Addr(s2.regs[R_PC])] == 0xF025;
    Properties.RunNext(s1, 1);
    Properties.HaltStops(s2, 0);
  }

  /** `LEA R0, #1` at 0x3000: R0 = 0x3002, the address after the next instruction. */
  lemma LeaStep(s: State) returns (t: State)
    requires Valid(s) && s.run && s.regs[R_PC] == 0x3000 && s.mem[0x3000] == 0xE001
    ensures Step(s) == Next(t) && Valid(t) && t.run
    ensures t.regs[R_R0] == 0x3002 && t.regs[R_PC] == 0x3001 && t.regs[1] == s.regs[1]
    ensures t.mem == s.mem && t.output == s.output
  {
    var f := Fetch(s);
    assert Decode(f.instr) == LEA && Dr(f.instr) == 0 && PcOffset9(f.instr) == 1;
    t := Lea(f.state, f.instr);
  }

  /** `STR R1, R0, #0` at 0x3001 with R0 = 0x3002: the word at 0x3002 becomes R1. */
  lemma StrStep(s: State) returns (t: State)
    requires Valid(s) && s.run && s.regs[R_PC] == 0x3001 && s.mem[0x3001] == 0x7200
    requires s.regs[R_R0] == 0x3002
    ensures Step(s) == Next(t) && Valid(t) && t.run
    ensures t.mem[0x3002] == s.regs[1] && t.regs[R_R0] == 0x3002 && t.regs[R_PC] == 0x3002
    ensures t.output == s.output
  {
    var f := Fetch(s);
    assert Decode(f.instr) == STR && Dr(f.instr) == 1 && Sr1(f.instr) == 0 && Offset6(f.instr) == 0;
    t := Str(f.state, f.instr);
  }

  /** The word 0 is BR with an empty mask: the step only advances PC. */
  lemma EmptyBranchStep(s: State) returns (t: State)
    requires Valid(s) && s.run && s.mem[Addr(s.regs[R_PC])] == 0
    ensures Step(s) == Next(t) && t == Fetch(s).state
  {
    var f := Fetch(s);
    assert Decode(f.instr) == BR && CondMask(f.instr) == 0;
    t := Br(f.state, f.instr);
  }

  /** The three words of LEA_STR_HALT are loaded from 0x3000. */
  lemma LeaStrImage(input: seq<Byte>, ready: seq<bool>)
    ensures var s := Loaded(LEA_STR_HALT, input, ready);
      s.mem[0x3000] == 0xE001 && s.mem[0x3001] == 0x7200 && s.mem[0x3002] == 0xF025
  {
    Loader.LoadOfImage(Init(input, ready).mem, 0x3000, [0xE001, 0x7200, 0xF025]);
    ImageBytes(0x3000, [0xE001, 0x7200, 0xF025]);
    ImageBytes(0xE001, [0x7200, 0xF025]);
    ImageBytes(0x7200, [0xF025]);
    ImageBytes(0xF025, []);
  }

  /**
   * "LEA R0, #1; STR R1, R0, #0; TRAP x25": LEA adds its offset to the already-incremented PC,
   * so R0 = 0x3002, the address of the TRAP word itself, and STR overwrites that word with R1.
   * With R1 = 0 the third instruction fetched is the word 0, a BR with an empty mask, so the
   * program does not halt after three instructions.
   */
  lemma LeaStrOverwritesHalt(input: seq<Byte>, ready: seq<bool>)
    ensures var o := Execute(Loaded(LEA_STR_HALT, input, ready), 3);
      o.exit == OutOfFuel && o.state.run
      && o.state.regs[R_R0] == 0x3002 && o.state.mem[0x3002] == 0
      && o.state.regs[R_PC] == 0x3003 && o.state.output == []
  {
    var s := Loaded(LEA_STR_HALT, input, ready);
    LeaStrImage(input, ready);
    var s1 := Start(s);
    var s2 := LeaStep(s1);
    var s3 := StrStep(s2);
    var s4 := EmptyBranchStep(s3);
    Properties.RunNext(s1, 2);
    Properties.RunNext(s2, 1);
    Properties.RunNext(s3, 0);
  }

  /**
   * `LDI R0, #0` whose pointer cell holds KBSR, with a key ready and 'A' waiting: the read of
   * KBSR polls the keyboard, so R0 receives the status word 0x8000 and the flags say negative.
   */
  lemma LdiPollsKeyboard(s: State)
    requires Valid(s) && s.regs[R_PC] != MR_KBSR && s.mem[Addr(s.regs[R_PC])] == MR_KBSR
    requires s.ready == [true] && s.input == [0x41]
    ensures var t := Ldi(s, 0xA000);
      t.regs[R_R0] == 0x8000 && t.regs[R_COND] == FL_NEG
      && t.mem[Addr(MR_KBDR)] == 0x41 && t.input == [] && t.ready == []
  {
    assert PcOffset9(0xA000) == 0 && Dr(0xA000) == 0;
    var pointer := MemRead(s, PcRelative(s, 0xA000));
    assert pointer == Read(s, MR_KBSR);
    var status := MemRead(s, MR_KBSR);
    assert KeyReady(s) && status.value == 0x8000;
    assert FlagOf(0x8000) == FL_NEG;
  }

  /** `JSRR R7` saves the return address in R7 before reading it, so it jumps to the old PC. */
  lemma JsrrThroughR7(s: State)
    requires Valid(s)
    ensures Jsr(s, 0x41C0).regs[R_PC] == s.regs[R_PC] && Jsr(s, 0x41C0).regs[R_R7] == s.regs[R_PC]
  {
  }

  /** The loader never writes the last memory cell, whatever the image. */
  lemma LastCellNeverLoaded(mem: seq<Word>, bytes: seq<Byte>)
    requires |mem| == MEMORY_MAX
    ensures Loader.LoadImage(mem, bytes)[0xFFFF] == mem[0xFFFF]
  {
  }

  /** The same image run on the class: it halts with R0 = 0 and the zero flag set. */
  method RunAddHalt() returns (exit: Exit, r0: Word, cond: Word, text: seq<Byte>)
    ensures exit == Halted && r0 == 0 && cond == FL_ZRO && text == HALT_TEXT
  {
    var vm := new Machine.Vm([], []);
    var ok := vm.ReadImage(Loader.Some(ADD_HALT));
    assert vm.Abs() == Loaded(ADD_HALT, [], []);
    exit := vm.Execute(2);
    AddHaltRuns([], []);
    r0 := vm.regs[R_R0];
    cond := vm.regs[R_COND];
    text := vm.output;
  }
}
