/**
 * The class `VM::vm` of src/vm.h: memory and registers are arrays updated in place, `run` and
 * the console are fields. Every method is proved to leave the machine in the state the
 * corresponding function of module Semantics describes, so the properties proved there hold of
 * the class.
 */
module Machine {
  import opened Bits
  import opened Isa
  import Semantics
  import Loader
  import Properties

  class Vm {
    var memory: array<Word>
    var regs: array<Word>
    var run: bool
    /** The bytes `getchar` will return, in order. */
    var input: seq<Byte>
    /** The answers `check_key` will give, one per poll. */
    var ready: seq<bool>
    /** Everything written to stdout. */
    var output: seq<Byte>

    /** The arrays have the sizes `MEMORY_MAX` and `R_COUNT`. */
    ghost predicate Valid()
      reads this
    {
      memory.Length == MEMORY_MAX && regs.Length == R_COUNT
    }

    /** The machine as a value of the reference semantics. */
    ghost function Abs(): Semantics.State
      reads this, memory, regs
      requires Valid()
    {
      Semantics.State(memory[..], regs[..], run, input, ready, output)
    }

    /** `new VM::vm()`: memory and registers zero-filled, `run` set, nothing written yet. */
    constructor (input: seq<Byte>, ready: seq<bool>)
      ensures Valid() && Abs() == Semantics.Init(input, ready)
      ensures fresh(memory) && fresh(regs)
    {
      memory := new Word[MEMORY_MAX](_ => 0);
      regs := new Word[R_COUNT](_ => 0);
      run := true;
      this.input := input;
      this.ready := ready;
      output := [];
    }

    // ---------------------------------------------------------------- console

    /** `check_key()`: the next answer of the key oracle, which it consumes. */
    method CheckKey() returns (key: bool)
      requires Valid()
      modifies this`ready
      ensures key == Semantics.KeyReady(old(Abs())) && ready == Semantics.Tail(old(ready))
    {
      key := ready != [] && ready[0];
      ready := Semantics.Tail(ready);
    }

    /** `getchar()` as a uint16_t: the next input byte, or 0xFFFF at end of input. */
    method Getchar() returns (c: Word)
      modifies this`input
      ensures c == Semantics.GetcharWord(old(input)) && input == Semantics.Tail(old(input))
    {
      if input == [] {
        c := 0xFFFF;
      } else {
        c := input[0] as Word;
      }
      input := Semantics.Tail(input);
    }

    // ---------------------------------------------------------------- flags and memory

    /** `update_flags(r)`. */
    method UpdateFlags(r: nat)
      requires Valid() && r < R_COUNT
      modifies regs
      ensures Valid() && Abs() == Semantics.UpdateFlags(old(Abs()), r)
    {
      if regs[r] == 0 {
        regs[R_COND] := FL_ZRO;
      } else if regs[r] >> 15 != 0 {
        regs[R_COND] := FL_NEG;
      } else {
        regs[R_COND] := FL_POS;
      }
    }

    /** `mem_write(address, val)`. */
    method MemWrite(address: Word, val: Word)
      requires Valid()
      modifies memory
      ensures Valid() && Abs() == Semantics.MemWrite(old(Abs()), address, val)
    {
      Store(Addr(address), val);
    }

    /** The array store behind `memory[address] = val`, at the cell index of the address. */
    method Store(i: nat, val: Word)
      requires Valid() && i < MEMORY_MAX
      modifies memory
      ensures Valid() && memory[..] == old(memory[..])[i := val]
    {
      memory[i] := val;
    }

    /** `mem_read(address)`, with the keyboard poll at KBSR. */
    method MemRead(address: Word) returns (v: Word)
      requires Valid()
      modifies memory, this`input, this`ready
      ensures Valid() && Semantics.Read(Abs(), v) == Semantics.MemRead(old(Abs()), address)
    {
      if address == MR_KBSR {
        var key := CheckKey();
        if key {
          memory[Addr(MR_KBSR)] := 0x8000;
          var c := Getchar();
          memory[Addr(MR_KBDR)] := c;
        } else {
          memory[Addr(MR_KBSR)] := 0;
        }
      }
      v := memory[Addr(address)];
    }

    // ---------------------------------------------------------------- instruction handlers

    method Br(instr: Word)
      requires Valid()
      modifies regs
      ensures Valid() && Abs() == Semantics.Br(old(Abs()), instr)
    {
      var offset := PcOffset9(instr);
      var cond := CondMask(instr);
      if cond & regs[R_COND] != 0 {
        regs[R_PC] := Add16(regs[R_PC], offset);
      }
    }

    method Add(instr: Word)
      requires Valid()
      modifies regs
      ensures Valid() && Abs() == Semantics.Add(old(Abs()), instr)
    {
      var dr := Dr(instr);
      var sr1 := Sr1(instr);
      if ImmFlag(instr) {
        var imm5 := Imm5(instr);
        regs[dr] := Add16(regs[sr1], imm5);
      } else {
        var sr2 := Sr2(instr);
        regs[dr] := Add16(regs[sr1], regs[sr2]);
      }
      UpdateFlags(dr);
    }

    method Ld(instr: Word)
      requires Valid()
      modifies regs, memory, this`input, this`ready
      ensures Valid() && Abs() == Semantics.Ld(old(Abs()), instr)
    {
      var r0 := Dr(instr);
      var pcOffset := PcOffset9(instr);
      var v := MemRead(Add16(regs[R_PC], pcOffset));
      regs[r0] := v;
      UpdateFlags(r0);
    }

    method St(instr: Word)
      requires Valid()
      modifies memory
      ensures Valid() && Abs() == Semantics.St(old(Abs()), instr)
    {
      var r0 := Dr(instr);
      var pcOffset := PcOffset9(instr);
      MemWrite(Add16(regs[R_PC], pcOffset), regs[r0]);
    }

    method Jsr(instr: Word)
      requires Valid()
      modifies regs
      ensures Valid() && Abs() == Semantics.Jsr(old(Abs()), instr)
    {
      var r1 := Sr1(instr);
      var longPcOffset := PcOffset11(instr);
      regs[R_R7] := regs[R_PC];
      if LongFlag(instr) {
        regs[R_PC] := Add16(regs[R_PC], longPcOffset);
      } else {
        regs[R_PC] := regs[r1];
      }
    }

    method And(instr: Word)
      requires Valid()
      modifies regs
      ensures Valid() && Abs() == Semantics.And(old(Abs()), instr)
    {
      var dr := Dr(instr);
      var sr1 := Sr1(instr);
      if ImmFlag(instr) {
        var imm5 := Imm5(instr);
        regs[dr] := And16(regs[sr1], imm5);
      } else {
        var sr2 := Sr2(instr);
        regs[dr] := And16(regs[sr1], regs[sr2]);
      }
      UpdateFlags(dr);
    }

    method Ldr(instr: Word)
      requires Valid()
      modifies regs, memory, this`input, this`ready
      ensures Valid() && Abs() == Semantics.Ldr(old(Abs()), instr)
    {
      var r0 := Dr(instr);
      var r1 := Sr1(instr);
      var offset := Offset6(instr);
      var v := MemRead(Add16(regs[r1], offset));
      regs[r0] := v;
      UpdateFlags(r0);
    }

    method Str(instr: Word)
      requires Valid()
      modifies memory
      ensures Valid() && Abs() == Semantics.Str(old(Abs()), instr)
    {
      var r0 := Dr(instr);
      var r1 := Sr1(instr);
      var offset := Offset6(instr);
      MemWrite(Add16(regs[r1], offset), regs[r0]);
    }

    method Not(instr: Word)
      requires Valid()
      modifies regs
      ensures Valid() && Abs() == Semantics.Not(old(Abs()), instr)
    {
      var dr := Dr(instr);
      var sr := Sr1(instr);
      regs[dr] := !regs[sr];
      UpdateFlags(dr);
    }

    method Ldi(instr: Word)
      requires Valid()
      modifies regs, memory, this`input, this`ready
      ensures Valid() && Abs() == Semantics.Ldi(old(Abs()), instr)
    {
      var dr := Dr(instr);
      var pcOffset := PcOffset9(instr);
      var pointer := MemRead(Add16(regs[R_PC], pcOffset));
      var v := MemRead(pointer);
      regs[dr] := v;
      UpdateFlags(dr);
    }

    method Sti(instr: Word)
      requires Valid()
      modifies memory, this`input, this`ready
      ensures Valid() && Abs() == Semantics.Sti(old(Abs()), instr)
    {
      var r0 := Dr(instr);
      var pcOffset := PcOffset9(instr);
      var pointer := MemRead(Add16(regs[R_PC], pcOffset));
      MemWrite(pointer, regs[r0]);
    }

    method Jmp(instr: Word)
      requires Valid()
      modifies regs
      ensures Valid() && Abs() == Semantics.Jmp(old(Abs()), instr)
    {
      var br := Sr1(instr);
      regs[R_PC] := regs[br];
    }

    method Lea(instr: Word)
      requires Valid()
      modifies regs
      ensures Valid() && Abs() == Semantics.Lea(old(Abs()), instr)
    {
      var r0 := Dr(instr);
      var pcOffset := PcOffset9(instr);
      regs[r0] := Add16(regs[R_PC], pcOffset);
      UpdateFlags(r0);
    }

    // ---------------------------------------------------------------- traps

    /** The PUTS loop: one character per word from R0 until a zero word or the end of memory. */
    method Puts()
      requires Valid()
      modifies this`output
      ensures output == old(output) + Semantics.PutsText(memory[..], Addr(regs[R_R0]))
    {
      var c: nat := Addr(regs[R_R0]);
      while c < MEMORY_MAX && memory[c] != 0
        invariant c <= MEMORY_MAX
        invariant output + Semantics.PutsText(memory[..], c)
          == old(output) + Semantics.PutsText(memory[..], Addr(regs[R_R0]))
        decreases MEMORY_MAX - c
      {
        output := output + [Lo(memory[c])];
        c := c + 1;
      }
    }

    /** The PUTSP loop: the low byte of each word, then its high byte unless that is zero. */
    method Putsp()
      requires Valid()
      modifies this`output
      ensures output == old(output) + Semantics.PutspText(memory[..], Addr(regs[R_R0]))
    {
      ghost var m := memory[..];
      var c: nat := Addr(regs[R_R0]);
      while c < MEMORY_MAX && memory[c] != 0
        invariant c <= MEMORY_MAX
        invariant output + Semantics.PutspText(m, c)
          == old(output) + Semantics.PutspText(m, Addr(regs[R_R0]))
        decreases MEMORY_MAX - c
      {
        assert Semantics.PutspText(m, c) == Semantics.Packed(m[c]) + Semantics.PutspText(m, c + 1);
        PutPacked(memory[c]);
        c := c + 1;
      }
    }

    /** The body of the PUTSP loop for one word: `char1`, then `char2` if it is not zero. */
    method PutPacked(w: Word)
      modifies this`output
      ensures output == old(output) + Semantics.Packed(w)
    {
      var char1 := Lo(w);
      output := output + [char1];
      var char2 := Hi(w);
      if char2 != 0 {
        output := output + [char2];
      }
    }

    /** TRAP: the service routine its vector selects. */
    method Trap(instr: Word)
      requires Valid()
      modifies regs, this`run, this`input, this`output
      ensures Valid() && Abs() == Semantics.Trap(old(Abs()), instr)
    {
      ghost var s := Abs();
      var vector := TrapVector(instr);
      if vector == TRAP_GETC {
        var c := Getchar();
        regs[R_R0] := c;
        assert Abs() == s.(regs := s.regs[R_R0 := c], input := Semantics.Tail(s.input));
      } else if vector == TRAP_OUT {
        output := output + [Lo(regs[R_R0])];
      } else if vector == TRAP_PUTS {
        Puts();
      } else if vector == TRAP_IN {
        output := output + Semantics.PROMPT;
        var w := Getchar();
        var c := Lo(w);
        output := output + [c];
        regs[R_R0] := CharToWord(c);
        UpdateFlags(R_R0);
        assert c == Semantics.GetcharByte(s.input);
        assert Abs() == Semantics.SetReg(s.(output := s.output + Semantics.PROMPT + [c],
          input := Semantics.Tail(s.input)), R_R0, CharToWord(c));
      } else if vector == TRAP_PUTSP {
        Putsp();
      } else if vector == TRAP_HALT {
        output := output + Semantics.HALT_TEXT;
        run := false;
      }
    }

    // ---------------------------------------------------------------- the execution loop

    /** The `switch (op)` of `execute`: runs the handler, or reports the `abort()` of RTI and RES. */
    method Dispatch(instr: Word) returns (fault: bool)
      requires Valid()
      modifies memory, regs, this`run, this`input, this`ready, this`output
      ensures Valid()
      ensures (if fault then Semantics.Fault(Abs(), instr >> 12) else Semantics.Next(Abs()))
        == Semantics.Dispatch(old(Abs()), instr)
    {
      fault := false;
      match Decode(instr)
      case BR => Br(instr);
      case ADD => Add(instr);
      case LD => Ld(instr);
      case ST => St(instr);
      case JSR => Jsr(instr);
      case AND => And(instr);
      case LDR => Ldr(instr);
      case STR => Str(instr);
      case RTI => fault := true;
      case NOT => Not(instr);
      case LDI => Ldi(instr);
      case STI => Sti(instr);
      case JMP => Jmp(instr);
      case RES => fault := true;
      case LEA => Lea(instr);
      case TRAP => Trap(instr);
    }

    /** One pass of the `while (run)` body: fetch `memory[regs[R_PC]++]`, then dispatch it. */
    method Step() returns (fault: bool, opcode: Word)
      requires Valid()
      modifies memory, regs, this`run, this`input, this`ready, this`output
      ensures Valid()
      ensures (if fault then Semantics.Fault(Abs(), opcode) else Semantics.Next(Abs()))
        == Semantics.Step(old(Abs()))
    {
      var instr := memory[Addr(regs[R_PC])];
      regs[R_PC] := Add16(regs[R_PC], 1);
      assert Abs() == Semantics.Fetch(old(Abs())).state;
      fault := Dispatch(instr);
      opcode := instr >> 12;
    }

    /**
     * `execute()`, for at most `fuel` instructions: the machine ends in the state, and with the
     * exit, that `Semantics.Execute` gives.
     */
    method Execute(fuel: nat) returns (exit: Semantics.Exit)
      requires Valid()
      modifies memory, regs, this`run, this`input, this`ready, this`output
      ensures Valid() && Semantics.Outcome(exit, Abs()) == Semantics.Execute(old(Abs()), fuel)
    {
      regs[R_COND] := FL_ZRO;
      regs[R_PC] := PC_START;
      ghost var start := Abs();
      assert start == Semantics.Start(old(Abs()));
      var steps := 0;
      while steps < fuel && run
        invariant Valid() && steps <= fuel
        invariant Semantics.Run(Abs(), fuel - steps) == Semantics.Run(start, fuel)
        decreases fuel - steps
      {
        ghost var before := Abs();
        var fault, opcode := Step();
        if fault {
          Properties.RunFault(before, fuel - steps - 1);
          exit := Semantics.Aborted(opcode);
          return;
        }
        Properties.RunNext(before, fuel - steps - 1);
        steps := steps + 1;
      }
      if !run {
        exit := Semantics.Halted;
      } else {
        exit := Semantics.OutOfFuel;
      }
    }

    // ---------------------------------------------------------------- the image loader

    /**
     * The second `fread` of `read_image_file`: copies whole words of the file, as a
     * little-endian host stores them, into memory from the origin, and returns how many.
     */
    method Fread(bytes: seq<Byte>) returns (read: nat)
      requires Valid()
      modifies memory
      ensures Valid() && memory[..] == Loader.Fread(old(memory[..]), bytes)
      ensures read == Loader.WordCount(bytes)
    {
      read := Loader.WordCount(bytes);
      if |bytes| >= 2 {
        var origin := Addr(Loader.Origin(bytes));
        forall i | 0 <= i < read {
          memory[origin + i] := Loader.RawPayload(bytes, i);
        }
      }
      assert memory[..] == Loader.Fread(old(memory[..]), bytes);
    }

    /**
     * `read_image_file(file)` over the bytes of the file: reads the origin, reads the payload
     * into place, then byte-swaps every word read.
     */
    method ReadImageFile(bytes: seq<Byte>)
      requires Valid()
      modifies memory
      ensures Valid() && memory[..] == Loader.LoadImage(old(memory[..]), bytes)
    {
      var origin: Word := 0;
      if |bytes| >= 2 {
        origin := Swap16(Loader.RawWord(bytes[0], bytes[1]));
      }
      var read := Fread(bytes);
      ghost var stored := memory[..];
      var p: nat := Addr(origin);
      var left := read;
      while left > 0
        invariant Valid() && Addr(origin) <= p && p + left == Addr(origin) + read <= MEMORY_MAX
        invariant forall a :: 0 <= a < MEMORY_MAX ==>
          memory[a] == if Addr(origin) <= a < p then Swap16(stored[a]) else stored[a]
        invariant |bytes| >= 2 ==> origin == Loader.Origin(bytes)
        decreases left
      {
        memory[p] := Swap16(memory[p]);
        p := p + 1;
        left := left - 1;
      }
      Loader.LoadIsSwappedFread(old(memory[..]), bytes, memory[..]);
    }

    /**
     * `read_image(path)`: `None` stands for a file `fopen` could not open, which loads nothing
     * and reports failure.
     */
    method ReadImage(file: Loader.Option<seq<Byte>>) returns (ok: bool)
      requires Valid()
      modifies memory
      ensures Valid() && ok == file.Some?
      ensures file.Some? ==> memory[..] == Loader.LoadImage(old(memory[..]), file.value)
      ensures file.None? ==> memory[..] == old(memory[..])
    {
      if file.None? {
        return false;
      }
      ReadImageFile(file.value);
      return true;
    }
  }
}
