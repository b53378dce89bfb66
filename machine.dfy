/** The engine as an object: the machine state lives in fields, and the
    primitives and `executeOne` update them in place. Every method is
    proved to leave exactly the state its specification function in
    `MachineSpec` computes from the state before the call.
 */
module SimpleStackMachine {
  import opened JavaInt
  import opened Instructions
  import opened MachineSpec

  class Machine {
    const cfg: Config
    /** Selects the corrected engine (see `MachineSpec.StepWith`). */
    const corrected: bool

    var regs: map<Word, Word>
    var mem: map<Word, Word>
    var halted: bool
    var instr: Instr
    var instrPC: Word
    var opnds: seq<Word>
    var out: seq<Msg>

    function State(): MState
      reads this
    {
      MState(regs, mem, halted, instr, instrPC, opnds, out)
    }

    constructor (cfg: Config, corrected: bool, init: MState)
      ensures this.cfg == cfg && this.corrected == corrected
      ensures State() == init
    {
      this.cfg := cfg;
      this.corrected := corrected;
      regs := init.regs;
      mem := init.mem;
      halted := init.halted;
      instr := init.instr;
      instrPC := init.instrPC;
      opnds := init.opnds;
      out := init.out;
    }

    method SetRegister(r: Word, v: Word)
      modifies this
      ensures State() == SetReg(old(State()), r, v)
    {
      regs := regs[r := v];
    }

    method AdjustRegister(r: Word, d: Word)
      modifies this
      ensures State() == AdjustReg(old(State()), r, d)
    {
      regs := regs[r := Add(Reg(State(), r), d)];
    }

    method Println(m: Msg)
      modifies this
      ensures State() == Say(old(State()), m)
    {
      out := out + [m];
    }

    method Push(v: Word)
      modifies this
      ensures State() == MachineSpec.Push(cfg, old(State()), v)
    {
      var sp := Add(Reg(State(), SP), Dir(cfg, 1));
      regs := regs[SP := sp];
      mem := mem[sp := v];
    }

    method Pop() returns (v: Word)
      modifies this
      ensures (State(), v) == MachineSpec.Pop(cfg, old(State()))
    {
      v := MemAt(mem, Reg(State(), SP));
      regs := regs[SP := Add(Reg(State(), SP), Dir(cfg, -1))];
    }

    method CopyMem(from: Word, to: Word, size: Word)
      modifies this
      ensures State() == old(State()).(mem := MachineSpec.CopyMem(cfg, old(mem), from, to, size))
    {
      if Dir(cfg, from) < Dir(cfg, to) {
        var i: int := Sub(size, 1);
        while i >= 0
          invariant CopyDown(cfg, mem, from, to, i) == CopyDown(cfg, old(mem), from, to, Sub(size, 1))
          invariant State() == old(State()).(mem := mem)
          decreases i + 1
        {
          mem := mem[Add(to, Dir(cfg, i)) := MemAt(mem, Add(from, Dir(cfg, i)))];
          i := i - 1;
        }
      } else {
        var i: nat := 0;
        while i < size
          invariant CopyUp(cfg, mem, from, to, size, i) == CopyUp(cfg, old(mem), from, to, size, 0)
          invariant State() == old(State()).(mem := mem)
          decreases size - i
        {
          mem := mem[Add(to, Dir(cfg, i)) := MemAt(mem, Add(from, Dir(cfg, i)))];
          i := i + 1;
        }
      }
    }

    method PushMultiple(from: Word, size: Word)
      modifies this
      ensures State() == MachineSpec.PushMultiple(cfg, old(State()), from, size)
    {
      var to := Add(Reg(State(), SP), Dir(cfg, 1));
      AdjustRegister(SP, Dir(cfg, size));
      CopyMem(from, to, size);
    }

    method PopMultiple(to: Word, size: Word)
      modifies this
      ensures State() == MachineSpec.PopMultiple(cfg, old(State()), to, size)
    {
      AdjustRegister(SP, Dir(cfg, Neg(size)));
      var from := Add(Reg(State(), SP), Dir(cfg, 1));
      CopyMem(from, to, size);
    }

    /** The inline-operand loop of `fetchNextInstr`. */
    method ReadOperands(pc: Word, n: nat) returns (ops: seq<Word>, next: Word)
      ensures ops == Operands(mem, pc, n) && next == Wrap(pc + 1 + n)
    {
      ops := [];
      next := Add(pc, 1);
      var i := 0;
      while i < n
        invariant 0 <= i <= n
        invariant ops == Operands(mem, pc, i)
        invariant next == Wrap(pc + 1 + i)
      {
        ops := ops + [MemAt(mem, next)];
        WrapAdd(pc + 1 + i, 1);
        next := Add(next, 1);
        i := i + 1;
      }
    }

    method FetchNextInstr() returns (code: Instr)
      modifies this
      ensures Fetched(State(), code) == Fetch(cfg, old(State()), corrected)
    {
      var pc := Reg(State(), PC);
      var word := MemAt(mem, pc);
      if word !in cfg.decode {
        Println(IllegalCodeMsg(word));
        code := HaltInstr;
        if corrected {
          instr, instrPC, opnds := HaltInstr, pc, [];
        }
        SetRegister(PC, Add(pc, 1));
      } else {
        code := cfg.decode[word];
        var ops, next := ReadOperands(pc, Arity(code));
        instr, instrPC, opnds := code, pc, ops;
        SetRegister(PC, next);
      }
    }

    method Halt()
      modifies this
      ensures State() == MachineSpec.Halt(old(State()))
    {
      halted := true;
      Println(Line(HaltedText));
    }

    method ExecBinopCategory(code: Instr)
      requires instr.BinopI? && DivisorOk(State(), code)
      modifies this
      ensures State() == MachineSpec.ExecBinopCategory(cfg, old(State()), code, corrected)
    {
      var b := Pop();
      var a := Pop();
      var r := a;
      if code.BinopI? {
        r := if corrected then Alu.ExecBinopFixed(code.bop, a, b) else Alu.ExecBinop(code.bop, a, b);
      }
      Push(r);
    }

    method ExecUnopCategory(code: Instr)
      modifies this
      ensures State() == MachineSpec.ExecUnopCategory(cfg, old(State()), code)
    {
      var a := Pop();
      Push(if code.UnopI? then Alu.ExecUnop(code.uop, a) else a);
    }

    method ExecBrcc()
      requires instr.BrccI?
      modifies this
      ensures State() == MachineSpec.ExecBrcc(cfg, old(State()))
    {
      var o := Opnd(State(), 0);
      var v := Pop();
      if cfg.srMatches(instr.cond, v) {
        AdjustRegister(PC, o);
      }
    }

    method ExecControl(op: PlainOp)
      requires GroupOf(op) == GControl
      modifies this
      ensures State() == MachineSpec.ExecControl(cfg, old(State()), op)
    {
      var o := Opnd(State(), 0);
      match op
      case IAdjs => AdjustRegister(SP, Dir(cfg, o));
      case IBra => AdjustRegister(PC, o);
      case IBrf =>
        var t := Pop();
        if t == 0 { AdjustRegister(PC, o); }
      case IBrt =>
        var t := Pop();
        if t != 0 { AdjustRegister(PC, o); }
      case IBsr =>
        Push(Reg(State(), PC));
        AdjustRegister(PC, o);
      case IHalt => Halt();
      case IJsr =>
        var t := Pop();
        Push(Reg(State(), PC));
        SetRegister(PC, t);
      case ILink =>
        Push(Reg(State(), MP));
        SetRegister(MP, Reg(State(), SP));
        AdjustRegister(SP, Dir(cfg, o));
      case INop =>
      case IRet =>
        var t := Pop();
        SetRegister(PC, t);
      case IUnlink =>
        SetRegister(SP, Reg(State(), MP));
        var t := Pop();
        SetRegister(MP, t);
    }

    method ExecLoad(op: PlainOp)
      requires GroupOf(op) == GLoad
      modifies this
      ensures State() == MachineSpec.ExecLoad(cfg, old(State()), op)
    {
      var o0, o1 := Opnd(State(), 0), Opnd(State(), 1);
      var sp, mp := Reg(State(), SP), Reg(State(), MP);
      match op
      case ILds => Push(MemAt(mem, Add(sp, Dir(cfg, o0))));
      case ILdms => PushMultiple(Add(sp, Dir(cfg, o0)), o1);
      case ILda =>
        var a := Pop();
        Push(MemAt(mem, Add(a, Dir(cfg, o0))));
      case ILdma =>
        var a := Pop();
        PushMultiple(Add(a, Dir(cfg, o0)), o1);
      case ILdc => Push(o0);
      case ILdl => Push(MemAt(mem, Add(mp, Dir(cfg, o0))));
      case ILdml => PushMultiple(Add(mp, Dir(cfg, o0)), o1);
      case ILdaa =>
        var a := Pop();
        Push(Add(a, o0));
      case ILdsa => Push(Add(sp, Dir(cfg, o0)));
      case ILdla => Push(Add(mp, Dir(cfg, o0)));
      case ILdr => Push(Reg(State(), o0));
      case ILdrr => SetRegister(o0, Reg(State(), o1));
    }

    method ExecStore(op: PlainOp)
      requires GroupOf(op) == GStore
      modifies this
      ensures State() == MachineSpec.ExecStore(cfg, old(State()), op)
    {
      var o0, o1 := Opnd(State(), 0), Opnd(State(), 1);
      var sp, mp := Reg(State(), SP), Reg(State(), MP);
      match op
      case ISts =>
        var v := Pop();
        mem := mem[Add(sp, Dir(cfg, o0)) := v];
      case IStms => PopMultiple(Add(sp, Dir(cfg, o0)), o1);
      case ISta =>
        var a := Pop();
        var v := Pop();
        mem := mem[Add(a, o0) := v];
      case IStma =>
        var a := Pop();
        PopMultiple(Add(a, o0), o1);
      case IStl =>
        var v := Pop();
        mem := mem[Add(mp, Dir(cfg, o0)) := v];
      case IStml => PopMultiple(Add(mp, Dir(cfg, o0)), o1);
      case IStr =>
        var v := Pop();
        SetRegister(o0, v);
      case ISwp =>
        var below := Add(sp, Dir(cfg, -1));
        var t := MemAt(mem, below);
        mem := mem[below := MemAt(mem, sp)];
        mem := mem[sp := t];
      case ISwpr =>
        var t := MemAt(mem, sp);
        mem := mem[sp := Reg(State(), o0)];
        SetRegister(o0, t);
      case ISwprr =>
        var t := Reg(State(), o0);
        SetRegister(o0, Reg(State(), o1));
        SetRegister(o1, t);
    }

    method ExecHeap(op: PlainOp)
      requires GroupOf(op) == GHeap
      modifies this
      ensures State() == MachineSpec.ExecHeap(cfg, old(State()), op)
    {
      var o0, o1 := Opnd(State(), 0), Opnd(State(), 1);
      match op
      case ILdh =>
        var addr := Pop();
        Push(MemAt(mem, Add(addr, o0)));
      case ILdmh =>
        var addr := Pop();
        PushMultiple(Sub(Sub(addr, o0), Sub(o1, 1)), o1);
      case ISth => StoreHeap();
      case IStmh => StoreMultipleHeap();
    }

    /** STH: move the top word to the heap and push its address. */
    method StoreHeap()
      modifies this
      ensures State() == MachineSpec.StoreHeap(cfg, old(State()))
    {
      var v := Pop();
      var addr := Reg(State(), HP);
      AdjustRegister(HP, 1);
      mem := mem[addr := v];
      Push(addr);
    }

    /** STMH: move the top words to the heap and push the last address. */
    method StoreMultipleHeap()
      modifies this
      ensures State() == MachineSpec.StoreMultipleHeap(cfg, old(State()))
    {
      var size := Opnd(State(), 0);
      var begin := Reg(State(), HP);
      var end := Sub(Add(begin, size), 1);
      AdjustRegister(HP, size);
      PopMultiple(begin, size);
      Push(end);
    }

    /** IN_CHAR_ARRAY: the terminating 0, then the characters from the last. */
    method PushCharArray(cs: seq<Word>)
      modifies this
      ensures State() == PushReversed(cfg, MachineSpec.Push(cfg, old(State()), 0), cs)
    {
      Push(0);
      ghost var start := State();
      var i := |cs| - 1;
      assert cs[..i + 1] == cs;
      while i >= 0
        invariant -1 <= i < |cs|
        invariant PushReversed(cfg, State(), cs[..i + 1]) == PushReversed(cfg, start, cs)
        decreases i + 1
      {
        ghost var before := State();
        PushReversedPrefix(cfg, before, cs, i);
        Push(cs[i]);
        i := i - 1;
      }
      assert cs[..i + 1] == [];
    }

    /** The file-name loop of FILE_OPEN_READ and FILE_OPEN_WRITE. */
    method PopFileName() returns (name: seq<nat>)
      modifies this
      ensures (State(), name) == MachineSpec.PopName(cfg, old(State()))
    {
      name := [];
      var fuel: nat := MaxNameLength;
      var n := Pop();
      ghost var start, first := State(), n;
      while n != 0 && fuel != 0
        invariant PopNameFrom(cfg, State(), n, name, fuel) == PopNameFrom(cfg, start, first, [], MaxNameLength)
        decreases fuel
      {
        name := name + [CharOf(n)];
        fuel := fuel - 1;
        n := Pop();
      }
    }

    /** FILE_OPEN_READ and FILE_OPEN_WRITE: pop the name, then open the file. */
    method TrapOpen(env: Env, readOnly: bool)
      modifies this
      ensures State() == MachineSpec.TrapOpen(cfg, old(State()), env, readOnly)
    {
      var name := PopFileName();
      match env.openFile(name, readOnly)
      case Opened(h) => Push(h);
      case OpenFailed => Println(FileNotFound(name));
    }

    method ExecTrap(env: Env)
      modifies this
      ensures State() == MachineSpec.ExecTrap(cfg, old(State()), env)
    {
      var t := Opnd(State(), 0);
      if t !in cfg.traps {
        return;
      }
      match cfg.traps[t]
      case TrPrInt =>
        var v := Pop();
        Println(Line(ToDecimal(v)));
      case TrPrChar =>
        var v := Pop();
        Println(CodePoint(v));
      case TrInInt => Push(env.promptInt);
      case TrInChar => Push(env.promptChar);
      case TrInCharArray => PushCharArray(env.promptChars);
      case TrFileOpenRead => TrapOpen(env, true);
      case TrFileOpenWrite => TrapOpen(env, false);
      case TrFileRead =>
        var h := Pop();
        var r := env.readFile(h);
        if r.FileValue? {
          Push(r.value);
        } else {
          Println(FileErrorMsg(r, ReadErrorText));
        }
      case TrFileWrite =>
        var h := Pop();
        var v := Pop();
        var r := env.writeFile(h, v);
        if r.FileValue? {
          Push(r.value);
        } else {
          Println(FileErrorMsg(r, WriteErrorText));
        }
      case TrFileClose =>
        var h := Pop();
        match env.closeFile(h)
        case Closed =>
        case CloseIOError => Println(Line(CloseErrorText));
        case CloseInvalidHandle => Println(Line(BadHandleText));
    }

    method ExecOp(code: Instr, env: Env)
      modifies this
      ensures State() == MachineSpec.ExecOp(cfg, old(State()), code, env)
    {
      if !code.OpI? {
        Println(NotImplementedMsg(State()));
        return;
      }
      var op := code.op;
      match GroupOf(op)
      case GControl => ExecControl(op);
      case GLoad => ExecLoad(op);
      case GStore => ExecStore(op);
      case GHeap => ExecHeap(op);
      case GTrap => ExecTrap(env);
      case GOther => Println(NotImplementedMsg(State()));
    }

    /** `executeOne()`: one step of the engine; a halted machine does nothing. */
    method ExecuteOne(env: Env)
      requires StepDefined(cfg, State(), corrected)
      modifies this
      ensures State() == StepWith(cfg, old(State()), env, corrected)
    {
      if halted {
        return;
      }
      var code := FetchNextInstr();
      match instr
      case BinopI(_) => ExecBinopCategory(code);
      case UnopI(_) => ExecUnopCategory(code);
      case OpI(_) => ExecOp(code, env);
      case BrccI(_) => ExecBrcc();
    }
  }
}
