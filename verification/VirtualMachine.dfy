/** run of x86_64/asm.c, in place on a register array and on memory, and what it returns for a compiled program. */
module VirtualMachine {
  import opened Words
  import opened Machine
  import opened Source
  import opened Compiler
  import opened CompilerCorrectness
  import opened CompilerTheorem
  import opened WholeProgram
  import opened Encoding
  import opened Masks

  /** The last operand's register: immediates go to the secret register. */
  const SECRET: nat := 32

  /** The registers and memory as a state of the machine. */
  ghost function Contents(regs: array<Word>, mem: array<Word>): State
    requires regs.Length == 33
    reads regs, mem
  {
    State(regs[..32], mem[..])
  }

  /** The most register arguments that an instruction has room for. */
  const MX_REG_ARGS: nat := OPCODE_START / ARG_SIZE - 1

  /** The j-th register number of a word. */
  function RegisterAt(w: Word, j: nat): nat
    requires j < N_ARGS
  {
    ShiftRight(w, BITS - (OPCODE_LEN + (j + 1) * ARG_SIZE)) % 32
  }

  lemma RegisterIs(w: Word, j: nat)
    requires j < N_ARGS
    ensures RegisterAt(w, j) == Masked(ShiftRight(w, BITS - (OPCODE_LEN + (j + 1) * ARG_SIZE)), ArgMask())
  {
    RegisterBits(ShiftRight(w, BITS - (OPCODE_LEN + (j + 1) * ARG_SIZE)));
    hide Masked, ArgMask, ShiftRight;
  }

  /** What the masks and shifts take out of a word is what decoding says. */
  lemma DecodedIs(w: Word)
    ensures var n := ShiftRight(Masked(w, InstMask()), OPCODE_START); Decode(w).Some? <==> n < 16
    ensures Decode(w).Some? ==>
              var i := Decode(w).value;
              && OpcodeOf(ShiftRight(Masked(w, InstMask()), OPCODE_START)) == Some(i.op)
              && i.a == RegisterAt(w, 0) && i.b == RegisterAt(w, 1)
              && (Masked(w, FlagBit()) != 0 <==> i.c.Reg?) && (i.c.Reg? ==> i.c.r == RegisterAt(w, 2))
    ensures Masked(w, FlxOpMask(N_ARGS)) < P46
    ensures Decode(w).Some? && Masked(w, FlagBit()) == 0 ==>
              var imm := Masked(w, FlxOpMask(N_ARGS));
              Decode(w).value.c == Imm(if imm >= IMM_LIMIT then imm - P46 else imm)
  {
    OpcodeField(w);
    FlagField(w);
    LowField(w);
    Powers();
    hide Masked, InstMask, FlagBit, FlxOpMask, Pow2;
  }

  /** The operand numbers of a word, after an immediate has been put into the secret register. */
  method Unpack(w: Word, regs: array<Word>) returns (ok: bool, op: Opcode, a: nat, b: nat, c: nat)
    requires regs.Length == 33
    modifies regs
    ensures ok == Decode(w).Some? && regs[..32] == old(regs[..32])
    ensures ok ==> a < 32 && b < 32 && c < 33 && op == Decode(w).value.op && a == Decode(w).value.a && b == Decode(w).value.b
    ensures ok ==> regs[c] == Value(Decode(w).value.c, regs[..32])
  {
    DecodedIs(w);
    hide Decode, Masked, Combined, ShiftLeft, ShiftRight, FlxOpMask, InstMask, FlagBit;
    var opcode := ShiftRight(Masked(w, InstMask()), OPCODE_START);
    if opcode >= 16 {
      return false, Acx, 0, 0, 0;
    }
    ok, op := true, OpcodeOf(opcode).value;
    var n_args := N_ARGS;
    var args := new Word[MX_REG_ARGS](_ => 0);
    if Masked(w, FlagBit()) == 0 {
      var imm := SignExtended(Masked(w, FlxOpMask(n_args)));
      n_args := n_args - 1;
      regs[SECRET], args[n_args] := imm, SECRET;
    }
    UnpackRegisters(w, args, n_args);
    a, b, c := args[0], args[1], args[2];
  }

  lemma SignedWord(imm: Word)
    requires imm < P46
    ensures ToWord(imm - P46) == imm + (W64 - P46) && ToWord(imm) == imm
  {
  }

  /** The bits above an immediate, by its sign. */
  method SignExtended(imm: Word) returns (r: Word)
    requires imm < P46
    ensures r == ToWord(if imm >= IMM_LIMIT then imm - P46 else imm)
  {
    hide Masked, Combined, ShiftLeft, ShiftRight, FlagBit, ToWord, Sub;
    var idx := OPCODE_LEN + (N_ARGS - 1) * ARG_SIZE;
    SignField(imm);
    SignExtension(imm);
    SignedWord(imm);
    r := imm;
    if Masked(imm, ShiftRight(FlagBit(), idx)) != 0 {
      r := Combined(imm, ShiftLeft(Sub(0, 1), BITS - idx));
    }
  }

  /** The loop over the register arguments, from the last one on. */
  method UnpackRegisters(w: Word, args: array<Word>, n: nat)
    requires n <= N_ARGS <= args.Length
    modifies args
    ensures forall j :: 0 <= j < n ==> args[j] == RegisterAt(w, j)
    ensures forall j :: n <= j < args.Length ==> args[j] == old(args[j])
  {
    hide Masked, ArgMask, ShiftRight, RegisterAt;
    var instr := ShiftRight(w, BITS - (OPCODE_LEN + n * ARG_SIZE));
    for i := n downto 0
      invariant instr == ShiftRight(w, BITS - (OPCODE_LEN + i * ARG_SIZE))
      invariant forall j :: i <= j < n ==> args[j] == RegisterAt(w, j)
      invariant forall j :: n <= j < args.Length ==> args[j] == old(args[j])
    {
      RegisterIs(w, i);
      args[i] := Masked(instr, ArgMask());
      ShiftAgain(w, BITS - (OPCODE_LEN + (i + 1) * ARG_SIZE), ARG_SIZE);
      instr := ShiftRight(instr, ARG_SIZE);
    }
  }

  /** One iteration of the loop of run; not ok means that its behaviour is undefined. */
  method Iterate(regs: array<Word>, mem: array<Word>) returns (ok: bool)
    requires regs.Length == 33 && regs != mem && Running(Contents(regs, mem))
    modifies regs, mem
    ensures WordStep(old(Contents(regs, mem))) == if ok then Some(Contents(regs, mem)) else None
  {
    hide Decode, Encode, Shift, Quotient, Remainder, Bitwise;
    var at := regs[PC] % ADDRESSES;
    if at >= mem.Length { return false; }
    ghost var s := Contents(regs, mem);
    var op, a, b, c;
    ok, op, a, b, c := Unpack(mem[at], regs);
    if !ok { return; }
    ghost var i := Decode(s.mem[at]).value;
    EncodeDecode(s.mem[at]);
    assert Contents(regs, mem) == s && Value(i.c, s.regs) == regs[c];
    if op == Jnc {
      if regs[a] != 0 {
        regs[PC] := Add(regs[b], regs[c]);
        assert Contents(regs, mem).regs == s.regs[PC := Add(s.regs[i.b], Value(i.c, s.regs))];
        return;
      }
    } else if op == Acx {
      var p := regs[a] % ADDRESSES;
      if p >= mem.Length { return false; }
      var was := mem[p];
      if was == regs[b] { mem[p] := regs[c]; }
      regs[b] := was;
    } else if op == Ldr {
      var p := (regs[b] + regs[c]) % ADDRESSES;
      if p >= mem.Length { return false; }
      regs[a] := mem[p];
    } else if op == Str {
      var p := (regs[b] + regs[c]) % ADDRESSES;
      if p >= mem.Length { return false; }
      mem[p] := regs[a];
    } else if op != Exc {
      var x, y := regs[b], regs[c];
      var v := Alu(op, x, y);
      if v.None? { return false; }
      if op == Dvs || op == Dvu { regs[RR] := Remainder(op, x, y); }
      regs[a] := v.value;
    }
    regs[PC] := Add(regs[PC], 1);
  }

  /**
   The loop of run, cut off after limit iterations: what run returns, or None
   when it has not halted by then or its behaviour is undefined.
   */
  method Run(base: Word, machine: Word, mem: array<Word>, limit: nat) returns (result: Option<Word>)
    modifies mem
    ensures var end := RunFor(Initial(base, machine, old(mem[..])), limit);
            && (result.Some? <==> end.Some? && !Running(end.value))
            && (result.Some? ==> result.value == end.value.regs[RR] && mem[..] == end.value.mem)
  {
    hide WordStep;
    var regs := new Word[33](_ => 0);
    regs[IR] := machine;
    regs[SR] := W63;
    regs[PC] := base;
    ghost var s0 := Initial(base, machine, old(mem[..]));
    assert Contents(regs, mem) == s0;
    var left := limit;
    while regs[SR] >= W63 && left > 0
      invariant RunFor(s0, limit) == RunFor(Contents(regs, mem), left)
      invariant Running(Contents(regs, mem)) == (regs[SR] >= W63)
      decreases left
    {
      var ok := Iterate(regs, mem);
      if !ok { return None; }
      left := left - 1;
    }
    result := if regs[SR] >= W63 then None else Some(regs[RR]);
  }

  // -------------------------------------------------------- end to end

  /**
   Whole system: a program the compiler and assembler accept, loaded as words with
   o.need words of stack after it, and whose meaning is o, makes run return that
   value, for every number of iterations from some bound on.
   */
  lemma CompiledProgramReturns(es: Exprs, m: Image, machine: Word, mem: seq<Word>, fuel: nat, o: Out) returns (bound: nat)
    requires Build(es) == Some(m.code) && m.lo == m.base + |m.code|
    requires Loaded(m, mem) && m.lo + o.need < |mem| <= ADDRESSES
    requires EvalSeq(ProgramOf(es, m.base), fuel, es, 0, map[]) == Some(o)
    ensures forall n {:trigger RunFor(Initial(m.base, machine, mem), n)} :: n >= bound ==>
              var end := RunFor(Initial(m.base, machine, mem), n);
              end.Some? && !Running(end.value) && end.value.regs[RR] == o.acc
  {
    var s := Initial(m.base, machine, mem);
    var t := ProgramCorrect(es, m, machine, mem, fuel, o);
    RunsRefines(m, s, t);
    bound := LoopHalts(s, t);
  }
}
