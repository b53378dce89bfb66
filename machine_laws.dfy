/** Properties of the engine: what one step of an instruction does, the
    pairs of instructions that undo each other, the memmove behaviour of
    `copyMem`, and the handling of illegal opcodes as written and as
    corrected.
 */
module MachineLaws {
  import opened JavaInt
  import opened Instructions
  import opened Alu
  import opened MachineSpec

  /** The word at PC is the opcode of `i`. */
  predicate Decodes(cfg: Config, st: MState, i: Instr) {
    var w := MemAt(st.mem, Reg(st, PC));
    w in cfg.decode && cfg.decode[w] == i
  }

  /** The opcode at `a` is the opcode of `i`. */
  predicate DecodesAt(cfg: Config, m: map<Word, Word>, a: Word, i: Instr) {
    MemAt(m, a) in cfg.decode && cfg.decode[MemAt(m, a)] == i
  }

  // ---------------------------------------------------------------------
  // The stack

  lemma DirUnit(cfg: Config)
    ensures Dir(cfg, 1) == cfg.stride as int && Dir(cfg, -1) == -(cfg.stride as int)
  {
  }

  /** One stride down and one up, or up and down, is where SP started. */
  lemma StrideBack(cfg: Config, sp: Word)
    ensures Add(Add(sp, Dir(cfg, -1)), Dir(cfg, 1)) == sp
    ensures Add(Add(sp, Dir(cfg, 1)), Dir(cfg, -1)) == sp
  {
    DirUnit(cfg);
    var d: int := cfg.stride;
    WrapAdd(sp - d, d);
    WrapAdd(sp + d, -d);
  }

  /** `pop` after `push` returns the pushed word and restores every register. */
  lemma PopAfterPush(cfg: Config, st: MState, v: Word)
    ensures var (r, w) := Pop(cfg, Push(cfg, st, v));
            w == v && (forall q :: Reg(r, q) == Reg(st, q))
            && r.mem == st.mem[Add(Reg(st, SP), Dir(cfg, 1)) := v]
  {
    var sp := Reg(st, SP);
    var sp1 := Add(sp, Dir(cfg, 1));
    StrideBack(cfg, sp);
    var s := Push(cfg, st, v);
    assert s == SetMem(SetReg(st, SP, sp1), sp1, v);
    var (r, w) := Pop(cfg, s);
    assert r.mem == st.mem[sp1 := v] && w == v;
    assert Reg(r, SP) == sp;
  }

  /** Pushing back the word just popped leaves every register and every
      memory cell as it was. */
  lemma PushAfterPop(cfg: Config, st: MState)
    ensures var (s1, v) := Pop(cfg, st);
            var r := Push(cfg, s1, v);
            (forall q :: Reg(r, q) == Reg(st, q)) && (forall a :: MemAt(r.mem, a) == MemAt(st.mem, a))
  {
    var (s1, v) := Pop(cfg, st);
    StrideBack(cfg, Reg(st, SP));
    var r := Push(cfg, s1, v);
    assert Reg(r, SP) == Reg(st, SP);
    forall a
      ensures MemAt(r.mem, a) == MemAt(st.mem, a)
    {
      if a != Reg(st, SP) {
        assert MemAt(r.mem, a) == MemAt(s1.mem, a);
      }
    }
  }

  // ---------------------------------------------------------------------
  // copyMem, cell by cell

  /** Cell `i` of the destination holds the old cell `i` of the source. */
  lemma CopyMemCell(cfg: Config, m: map<Word, Word>, from: Word, to: Word, size: Word, i: int)
    requires BlockInRange(cfg.stride, from, size) && BlockInRange(cfg.stride, to, size)
    requires 0 <= i < size
    ensures MemAt(CopyMem(cfg, m, from, to, size), Add(to, Dir(cfg, i))) == MemAt(m, Add(from, Dir(cfg, i)))
  {
    BlockAddress(cfg, from, size, i);
    BlockAddress(cfg, to, size, i);
    var a := Add(to, Dir(cfg, i));
    assert Along(cfg.stride, a - to) == i;
  }

  /** A cell outside the destination keeps its word. */
  lemma CopyMemOutside(cfg: Config, m: map<Word, Word>, from: Word, to: Word, size: Word, a: Word)
    requires BlockInRange(cfg.stride, from, size) && BlockInRange(cfg.stride, to, size)
    requires !(0 <= Along(cfg.stride, a - to) < size)
    ensures MemAt(CopyMem(cfg, m, from, to, size), a) == MemAt(m, a)
  {
  }

  // ---------------------------------------------------------------------
  // One step

  /** Fetching never changes memory or the halted flag, and a step keeps
      every current instruction consistent with its operands. */
  lemma StepKeepsValid(cfg: Config, st: MState, env: Env, fixed: bool)
    requires StepDefined(cfg, st, fixed) && Valid(st)
    ensures Valid(StepWith(cfg, st, env, fixed))
  {
    if !st.halted {
      var f := Fetch(cfg, st, fixed);
      assert Valid(f.st);
      assert SameInstr(f.st, Execute(cfg, f.st, f.code, env, fixed));
    }
  }

  /** A step on a legal opcode executes it on the fetched state. */
  lemma StepLegal(cfg: Config, st: MState, env: Env, i: Instr)
    requires !st.halted && Decodes(cfg, st, i)
    ensures StepDefined(cfg, st, false) <==> DivisorOk(FetchLegal(cfg, st, i).st, i)
    ensures StepDefined(cfg, st, false) ==>
              Step(cfg, st, env) == Execute(cfg, FetchLegal(cfg, st, i).st, i, env, false)
  {
    assert Fetch(cfg, st, false) == FetchLegal(cfg, st, i);
  }

  /** A step on a legal branch, call, frame, HALT or NOP runs `ExecControl`. */
  lemma StepControl(cfg: Config, st: MState, env: Env, op: PlainOp)
    requires !st.halted && Decodes(cfg, st, OpI(op))
    requires GroupOf(op) == GControl
    ensures StepDefined(cfg, st, false)
    ensures Step(cfg, st, env) == ExecControl(cfg, FetchLegal(cfg, st, OpI(op)).st, op)
  {
    StepLegal(cfg, st, env, OpI(op));
  }

  /** A step on a legal heap instruction runs `ExecHeap`. */
  lemma StepHeap(cfg: Config, st: MState, env: Env, op: PlainOp)
    requires !st.halted && Decodes(cfg, st, OpI(op))
    requires GroupOf(op) == GHeap
    ensures StepDefined(cfg, st, false)
    ensures Step(cfg, st, env) == ExecHeap(cfg, FetchLegal(cfg, st, OpI(op)).st, op)
  {
    StepLegal(cfg, st, env, OpI(op));
  }

  /** The BINOP category pops the right operand, then the left, and
      pushes the result in their place. */
  lemma ExecBinopLaw(cfg: Config, st: MState, op: BinOp)
    requires st.instr.BinopI? && DefinedOn(op, Top(st))
    ensures var r := ExecBinopCategory(cfg, st, BinopI(op), false);
            var below := Add(Reg(st, SP), Dir(cfg, -1));
            Reg(r, SP) == below && Reg(r, PC) == Reg(st, PC)
            && (forall q :: q != SP ==> Reg(r, q) == Reg(st, q))
            && Top(r) == ExecBinop(op, MemAt(st.mem, below), Top(st))
            && (forall a :: a != below ==> MemAt(r.mem, a) == MemAt(st.mem, a))
            && r.halted == st.halted && r.out == st.out
  {
    StrideBack(cfg, Add(Reg(st, SP), Dir(cfg, -1)));
  }

  /** A step on a legal BINOP runs the BINOP category on the fetched state. */
  lemma StepIsBinop(cfg: Config, st: MState, env: Env, op: BinOp)
    requires !st.halted && Decodes(cfg, st, BinopI(op))
    requires DefinedOn(op, Top(st))
    ensures StepDefined(cfg, st, false)
    ensures Step(cfg, st, env) == ExecBinopCategory(cfg, FetchLegal(cfg, st, BinopI(op)).st, BinopI(op), false)
  {
    StepLegal(cfg, st, env, BinopI(op));
  }

  /** What a BINOP does to the state it was fetched from. */
  lemma FetchedBinopLaw(cfg: Config, st: MState, op: BinOp)
    requires DefinedOn(op, Top(st))
    ensures var r := ExecBinopCategory(cfg, FetchLegal(cfg, st, BinopI(op)).st, BinopI(op), false);
            var below := Add(Reg(st, SP), Dir(cfg, -1));
            Reg(r, PC) == Add(Reg(st, PC), 1) && Reg(r, SP) == below
            && (forall q :: q != PC && q != SP ==> Reg(r, q) == Reg(st, q))
            && Top(r) == ExecBinop(op, MemAt(st.mem, below), Top(st))
            && (forall a :: a != below ==> MemAt(r.mem, a) == MemAt(st.mem, a))
            && r.instr == BinopI(op) && r.halted == st.halted && r.out == st.out
  {
    var f := FetchLegal(cfg, st, BinopI(op));
    assert Reg(f.st, PC) == Add(Reg(st, PC), 1);
    assert Reg(f.st, SP) == Reg(st, SP) && Top(f.st) == Top(st);
    ExecBinopLaw(cfg, f.st, op);
  }

  /** A BINOP step: SP ends one stride lower, the result replaces the two
      operands, and PC moves past the opcode. */
  lemma StepBinop(cfg: Config, st: MState, env: Env, op: BinOp)
    requires !st.halted && Decodes(cfg, st, BinopI(op))
    requires DefinedOn(op, Top(st))
    ensures StepDefined(cfg, st, false)
    ensures var r := Step(cfg, st, env);
            var below := Add(Reg(st, SP), Dir(cfg, -1));
            Reg(r, PC) == Add(Reg(st, PC), 1) && Reg(r, SP) == below
            && (forall q :: q != PC && q != SP ==> Reg(r, q) == Reg(st, q))
            && Top(r) == ExecBinop(op, MemAt(st.mem, below), Top(st))
            && (forall a :: a != below ==> MemAt(r.mem, a) == MemAt(st.mem, a))
            && r.instr == BinopI(op) && !r.halted && r.out == st.out
  {
    StepIsBinop(cfg, st, env, op);
    FetchedBinopLaw(cfg, st, op);
  }

  /** LINK saves MP just above SP, points MP at it and reserves the locals. */
  lemma LinkLaw(cfg: Config, st: MState)
    ensures var r := ExecControl(cfg, st, ILink);
            var slot := Add(Reg(st, SP), Dir(cfg, 1));
            Reg(r, MP) == slot && MemAt(r.mem, slot) == Reg(st, MP)
            && Reg(r, SP) == Add(slot, Dir(cfg, Opnd(st, 0))) && Reg(r, PC) == Reg(st, PC)
            && (forall a :: a != slot ==> MemAt(r.mem, a) == MemAt(st.mem, a))
            && r.halted == st.halted && r.out == st.out
  {
  }

  /** What a LINK does to the state it was fetched from: its operand is the
      word after the opcode, and PC moves past both. */
  lemma FetchedLinkLaw(cfg: Config, st: MState)
    ensures var r := ExecControl(cfg, FetchLegal(cfg, st, OpI(ILink)).st, ILink);
            var slot := Add(Reg(st, SP), Dir(cfg, 1));
            var pc := Reg(st, PC);
            Reg(r, MP) == slot && MemAt(r.mem, slot) == Reg(st, MP)
            && Reg(r, SP) == Add(slot, Dir(cfg, MemAt(st.mem, Wrap(pc as int + 1))))
            && Reg(r, PC) == Wrap(pc as int + 2)
            && (forall a :: a != slot ==> MemAt(r.mem, a) == MemAt(st.mem, a))
            && r.halted == st.halted && r.out == st.out
  {
    var f := FetchLegal(cfg, st, OpI(ILink));
    var pc := Reg(st, PC);
    assert Opnd(f.st, 0) == MemAt(st.mem, Wrap(pc as int + 1));
    assert Reg(f.st, PC) == Wrap(pc as int + 2);
    LinkLaw(cfg, f.st);
  }

  /** UNLINK drops the frame down to MP and restores the saved MP. */
  lemma UnlinkLaw(cfg: Config, st: MState)
    ensures var r := ExecControl(cfg, st, IUnlink);
            Reg(r, SP) == Add(Reg(st, MP), Dir(cfg, -1)) && Reg(r, MP) == MemAt(st.mem, Reg(st, MP))
            && Reg(r, PC) == Reg(st, PC) && r.mem == st.mem
            && r.halted == st.halted && r.out == st.out
  {
  }

  /** What an UNLINK does to the state it was fetched from. */
  lemma FetchedUnlinkLaw(cfg: Config, st: MState)
    ensures var r := ExecControl(cfg, FetchLegal(cfg, st, OpI(IUnlink)).st, IUnlink);
            Reg(r, SP) == Add(Reg(st, MP), Dir(cfg, -1)) && Reg(r, MP) == MemAt(st.mem, Reg(st, MP))
            && Reg(r, PC) == Add(Reg(st, PC), 1) && r.mem == st.mem
            && r.halted == st.halted && r.out == st.out
  {
    var f := FetchLegal(cfg, st, OpI(IUnlink));
    assert Reg(f.st, PC) == Add(Reg(st, PC), 1);
    UnlinkLaw(cfg, f.st);
  }

  /** The registers an UNLINK leaves behind, when it runs on the frame a
      LINK left behind, are those from before the LINK. */
  lemma UnlinkAfterLink(cfg: Config, st: MState, s1: MState, s2: MState)
    requires Reg(s1, MP) == Add(Reg(st, SP), Dir(cfg, 1))
    requires MemAt(s1.mem, Reg(s1, MP)) == Reg(st, MP)
    requires Reg(s1, PC) == Wrap(Reg(st, PC) + 2)
    requires Reg(s2, SP) == Add(Reg(s1, MP), Dir(cfg, -1)) && Reg(s2, MP) == MemAt(s1.mem, Reg(s1, MP))
    requires Reg(s2, PC) == Add(Reg(s1, PC), 1)
    ensures Reg(s2, SP) == Reg(st, SP) && Reg(s2, MP) == Reg(st, MP)
    ensures Reg(s2, PC) == Wrap(Reg(st, PC) + 3)
  {
    StrideBack(cfg, Reg(st, SP));
    WrapAdd(Reg(st, PC) as int + 2, 1);
  }

  /** A LINK step: MP points at the saved MP just above the old SP, PC is
      past the LINK and its operand, and the word there is untouched as
      long as the saved MP does not land on it. */
  lemma StepLink(cfg: Config, st: MState, env: Env)
    requires !st.halted && Decodes(cfg, st, OpI(ILink))
    requires Add(Reg(st, SP), Dir(cfg, 1)) != Wrap(Reg(st, PC) + 2)
    ensures StepDefined(cfg, st, false)
    ensures var s1 := Step(cfg, st, env);
            Reg(s1, MP) == Add(Reg(st, SP), Dir(cfg, 1)) && MemAt(s1.mem, Reg(s1, MP)) == Reg(st, MP)
            && Reg(s1, PC) == Wrap(Reg(st, PC) + 2)
            && MemAt(s1.mem, Wrap(Reg(st, PC) + 2)) == MemAt(st.mem, Wrap(Reg(st, PC) + 2))
            && !s1.halted && s1.out == st.out
  {
    StepControl(cfg, st, env, ILink);
    FetchedLinkLaw(cfg, st);
  }

  /** An UNLINK step after a LINK step. */
  lemma StepUnlinkAfterLink(cfg: Config, st: MState, s1: MState, env: Env)
    requires !s1.halted && Decodes(cfg, s1, OpI(IUnlink))
    requires Reg(s1, MP) == Add(Reg(st, SP), Dir(cfg, 1))
    requires MemAt(s1.mem, Reg(s1, MP)) == Reg(st, MP)
    requires Reg(s1, PC) == Wrap(Reg(st, PC) + 2)
    ensures StepDefined(cfg, s1, false)
    ensures var s2 := Step(cfg, s1, env);
            Reg(s2, SP) == Reg(st, SP) && Reg(s2, MP) == Reg(st, MP)
            && Reg(s2, PC) == Wrap(Reg(st, PC) + 3) && !s2.halted && s2.out == s1.out
  {
    StepControl(cfg, s1, env, IUnlink);
    FetchedUnlinkLaw(cfg, s1);
    UnlinkAfterLink(cfg, st, s1, Step(cfg, s1, env));
  }

  /** LINK followed by UNLINK, as two steps of the machine, restore SP and
      MP, whatever the number of locals, as long as the saved MP does not
      overwrite the UNLINK. */
  lemma LinkThenUnlink(cfg: Config, st: MState, env1: Env, env2: Env)
    requires !st.halted && Decodes(cfg, st, OpI(ILink))
    requires Add(Reg(st, SP), Dir(cfg, 1)) != Wrap(Reg(st, PC) + 2)
    requires DecodesAt(cfg, st.mem, Wrap(Reg(st, PC) + 2), OpI(IUnlink))
    ensures StepDefined(cfg, st, false)
    ensures var s1 := Step(cfg, st, env1);
            StepDefined(cfg, s1, false)
            && (var s2 := Step(cfg, s1, env2);
                Reg(s2, SP) == Reg(st, SP) && Reg(s2, MP) == Reg(st, MP)
                && Reg(s2, PC) == Wrap(Reg(st, PC) + 3)
                && !s2.halted && s2.out == st.out)
  {
    StepLink(cfg, st, env1);
    var s1 := Step(cfg, st, env1);
    StepUnlinkAfterLink(cfg, st, s1, env2);
  }

  /** BSR pushes the return address and branches by its operand. */
  lemma BsrLaw(cfg: Config, st: MState)
    ensures var r := ExecControl(cfg, st, IBsr);
            var slot := Add(Reg(st, SP), Dir(cfg, 1));
            Reg(r, SP) == slot && Top(r) == Reg(st, PC)
            && Reg(r, PC) == Add(Reg(st, PC), Opnd(st, 0)) && Reg(r, MP) == Reg(st, MP)
            && (forall a :: a != slot ==> MemAt(r.mem, a) == MemAt(st.mem, a))
            && r.halted == st.halted && r.out == st.out
  {
  }

  /** What a BSR does to the state it was fetched from: the return address
      is the word after its operand. */
  lemma FetchedBsrLaw(cfg: Config, st: MState)
    ensures var r := ExecControl(cfg, FetchLegal(cfg, st, OpI(IBsr)).st, IBsr);
            var slot := Add(Reg(st, SP), Dir(cfg, 1));
            var pc := Reg(st, PC);
            Reg(r, SP) == slot && Top(r) == Wrap(pc as int + 2)
            && Reg(r, PC) == Add(Wrap(pc as int + 2), MemAt(st.mem, Wrap(pc as int + 1)))
            && Reg(r, MP) == Reg(st, MP)
            && (forall a :: a != slot ==> MemAt(r.mem, a) == MemAt(st.mem, a))
            && r.halted == st.halted && r.out == st.out
  {
    var f := FetchLegal(cfg, st, OpI(IBsr));
    var pc := Reg(st, PC);
    assert Opnd(f.st, 0) == MemAt(st.mem, Wrap(pc as int + 1));
    assert Reg(f.st, PC) == Wrap(pc as int + 2);
    BsrLaw(cfg, f.st);
  }

  /** RET pops the return address into PC. */
  lemma RetLaw(cfg: Config, st: MState)
    ensures var r := ExecControl(cfg, st, IRet);
            Reg(r, PC) == Top(st) && Reg(r, SP) == Add(Reg(st, SP), Dir(cfg, -1))
            && Reg(r, MP) == Reg(st, MP) && r.mem == st.mem
            && r.halted == st.halted && r.out == st.out
  {
  }

  /** BSR followed by the RET it branches to returns just past the BSR and
      restores SP, as long as the return address does not overwrite the RET. */
  lemma BsrThenRet(cfg: Config, st: MState, env1: Env, env2: Env)
    requires !st.halted && Decodes(cfg, st, OpI(IBsr))
    requires var target := Add(Wrap(Reg(st, PC) + 2), MemAt(st.mem, Wrap(Reg(st, PC) + 1)));
             Add(Reg(st, SP), Dir(cfg, 1)) != target && DecodesAt(cfg, st.mem, target, OpI(IRet))
    ensures StepDefined(cfg, st, false)
    ensures var s1 := Step(cfg, st, env1);
            StepDefined(cfg, s1, false)
            && (var s2 := Step(cfg, s1, env2);
                Reg(s2, PC) == Wrap(Reg(st, PC) + 2) && Reg(s2, SP) == Reg(st, SP)
                && Reg(s2, MP) == Reg(st, MP) && !s2.halted && s2.out == st.out)
  {
    StepControl(cfg, st, env1, IBsr);
    FetchedBsrLaw(cfg, st);
    var s1 := Step(cfg, st, env1);
    StepControl(cfg, s1, env2, IRet);
    RetLaw(cfg, FetchLegal(cfg, s1, OpI(IRet)).st);
    StrideBack(cfg, Reg(st, SP));
  }

  /** STH moves the top word to the heap cell HP points at, bumps HP by one
      and leaves the address of that cell on the stack in its place. */
  lemma SthLaw(cfg: Config, st: MState)
    ensures var r := StoreHeap(cfg, st);
            var hp := Reg(st, HP);
            Reg(r, HP) == Add(hp, 1) && Reg(r, SP) == Reg(st, SP) && Top(r) == hp
            && (hp != Reg(st, SP) ==> MemAt(r.mem, hp) == Top(st))
            && Reg(r, PC) == Reg(st, PC) && r.out == st.out && r.halted == st.halted
  {
    SthRegisters(cfg, st);
    SthMemory(cfg, st);
  }

  lemma SthRegisters(cfg: Config, st: MState)
    ensures var r := StoreHeap(cfg, st);
            Reg(r, HP) == Add(Reg(st, HP), 1) && Reg(r, SP) == Reg(st, SP)
            && Reg(r, PC) == Reg(st, PC) && r.out == st.out && r.halted == st.halted
  {
    var (s1, v) := Pop(cfg, st);
    var hp := Reg(s1, HP);
    var s2 := AdjustReg(s1, HP, 1);
    var s3 := SetMem(s2, hp, v);
    assert Reg(s3, HP) == Add(Reg(st, HP), 1) && Reg(s3, SP) == Reg(s1, SP);
    assert Reg(s3, PC) == Reg(st, PC);
    assert StoreHeap(cfg, st) == Push(cfg, s3, hp);
    StrideBack(cfg, Reg(st, SP));
  }

  lemma SthMemory(cfg: Config, st: MState)
    ensures var r := StoreHeap(cfg, st);
            var hp := Reg(st, HP);
            Top(r) == hp && (hp != Reg(st, SP) ==> MemAt(r.mem, hp) == Top(st))
  {
    var (s1, v) := Pop(cfg, st);
    var hp := Reg(s1, HP);
    var s2 := AdjustReg(s1, HP, 1);
    var s3 := SetMem(s2, hp, v);
    assert MemAt(s3.mem, hp) == Top(st) && hp == Reg(st, HP);
    assert StoreHeap(cfg, st) == Push(cfg, s3, hp);
    StrideBack(cfg, Reg(st, SP));
    assert Reg(Push(cfg, s3, hp), SP) == Reg(st, SP);
  }

  /** What an STH does to the registers of the state it was fetched from. */
  lemma FetchedSthRegisters(cfg: Config, st: MState)
    ensures var r := StoreHeap(cfg, FetchLegal(cfg, st, OpI(ISth)).st);
            Reg(r, HP) == Add(Reg(st, HP), 1) && Reg(r, SP) == Reg(st, SP)
            && Reg(r, PC) == Add(Reg(st, PC), 1) && r.out == st.out
  {
    var f := FetchLegal(cfg, st, OpI(ISth));
    assert Reg(f.st, PC) == Add(Reg(st, PC), 1);
    SthRegisters(cfg, f.st);
  }

  /** What an STH does to the memory of the state it was fetched from. */
  lemma FetchedSthMemory(cfg: Config, st: MState)
    ensures var r := StoreHeap(cfg, FetchLegal(cfg, st, OpI(ISth)).st);
            var hp := Reg(st, HP);
            Top(r) == hp && (hp != Reg(st, SP) ==> MemAt(r.mem, hp) == Top(st))
  {
    SthMemory(cfg, FetchLegal(cfg, st, OpI(ISth)).st);
  }

  /** A step on a legal STH stores to the heap from the fetched state. */
  lemma StepIsSth(cfg: Config, st: MState, env: Env)
    requires !st.halted && Decodes(cfg, st, OpI(ISth))
    ensures StepDefined(cfg, st, false)
    ensures Step(cfg, st, env) == StoreHeap(cfg, FetchLegal(cfg, st, OpI(ISth)).st)
  {
    StepHeap(cfg, st, env, ISth);
  }

  /** A step on STH: the heap law on the fetched state, with PC past the opcode. */
  lemma StepSth(cfg: Config, st: MState, env: Env)
    requires !st.halted && Decodes(cfg, st, OpI(ISth))
    ensures StepDefined(cfg, st, false)
    ensures var r := Step(cfg, st, env);
            var hp := Reg(st, HP);
            Reg(r, HP) == Add(hp, 1) && Reg(r, SP) == Reg(st, SP) && Top(r) == hp
            && (hp != Reg(st, SP) ==> MemAt(r.mem, hp) == Top(st))
            && Reg(r, PC) == Add(Reg(st, PC), 1) && r.out == st.out
  {
    StepIsSth(cfg, st, env);
    FetchedSthRegisters(cfg, st);
    FetchedSthMemory(cfg, st);
  }

  /** STMH moves the top `size` words to the heap from HP on, bumps HP by
      `size` and pushes HP + size - 1 into the lowest stack slot it freed.
      The heap cells are written along the stride, so with stride -1 they
      are HP, HP - 1, ..., while HP still moves up by `size`. */
  lemma StmhLaw(cfg: Config, st: MState)
    ensures var r := StoreMultipleHeap(cfg, st);
            var hp, size := Reg(st, HP), Opnd(st, 0);
            var slot := Add(Add(Reg(st, SP), Dir(cfg, Neg(size))), Dir(cfg, 1));
            Reg(r, HP) == Add(hp, size) && Top(r) == Sub(Add(hp, size), 1) && Reg(r, SP) == slot
            && (BlockInRange(cfg.stride, slot, size) && BlockInRange(cfg.stride, hp, size) ==>
                  forall a :: a != slot ==> MemAt(r.mem, a) == Moved(st.mem, cfg.stride, slot, hp, 0, size, a))
            && Reg(r, PC) == Reg(st, PC) && r.out == st.out && r.halted == st.halted
  {
  }

  /** What an STMH does to the state it was fetched from: the size is the
      word after the opcode. */
  lemma FetchedStmhLaw(cfg: Config, st: MState)
    ensures var r := StoreMultipleHeap(cfg, FetchLegal(cfg, st, OpI(IStmh)).st);
            var hp, size := Reg(st, HP), MemAt(st.mem, Wrap(Reg(st, PC) + 1));
            var slot := Add(Add(Reg(st, SP), Dir(cfg, Neg(size))), Dir(cfg, 1));
            Reg(r, HP) == Add(hp, size) && Top(r) == Sub(Add(hp, size), 1) && Reg(r, SP) == slot
            && (BlockInRange(cfg.stride, slot, size) && BlockInRange(cfg.stride, hp, size) ==>
                  forall a :: a != slot ==> MemAt(r.mem, a) == Moved(st.mem, cfg.stride, slot, hp, 0, size, a))
            && Reg(r, PC) == Wrap(Reg(st, PC) + 2) && r.out == st.out && r.halted == st.halted
  {
    var f := FetchLegal(cfg, st, OpI(IStmh));
    assert Opnd(f.st, 0) == MemAt(st.mem, Wrap(Reg(st, PC) as int + 1));
    assert Reg(f.st, PC) == Wrap(Reg(st, PC) as int + 2);
    StmhLaw(cfg, f.st);
  }

  /** A step on STMH. */
  lemma StepStmh(cfg: Config, st: MState, env: Env)
    requires !st.halted && Decodes(cfg, st, OpI(IStmh))
    ensures StepDefined(cfg, st, false)
    ensures var r := Step(cfg, st, env);
            var hp, size := Reg(st, HP), MemAt(st.mem, Wrap(Reg(st, PC) + 1));
            var slot := Add(Add(Reg(st, SP), Dir(cfg, Neg(size))), Dir(cfg, 1));
            Reg(r, HP) == Add(hp, size) && Top(r) == Sub(Add(hp, size), 1) && Reg(r, SP) == slot
            && (BlockInRange(cfg.stride, slot, size) && BlockInRange(cfg.stride, hp, size) ==>
                  forall a :: a != slot ==> MemAt(r.mem, a) == Moved(st.mem, cfg.stride, slot, hp, 0, size, a))
            && Reg(r, PC) == Wrap(Reg(st, PC) + 2) && r.out == st.out
  {
    StepHeap(cfg, st, env, IStmh);
    FetchedStmhLaw(cfg, st);
  }

  // ---------------------------------------------------------------------
  // Illegal opcodes

  /** As written, an illegal opcode does not halt the machine when the
      previous instruction was a BINOP: the step reports the opcode, then
      runs the BINOP category with the code of HALT, which pops two words
      and pushes the left one back. */
  lemma IllegalAfterBinopRuns(cfg: Config, st: MState, env: Env)
    requires !st.halted && st.instr.BinopI?
    requires MemAt(st.mem, Reg(st, PC)) !in cfg.decode
    ensures StepDefined(cfg, st, false)
    ensures var r := Step(cfg, st, env);
            var below := Add(Reg(st, SP), Dir(cfg, -1));
            !r.halted && r.out == st.out + [IllegalCodeMsg(MemAt(st.mem, Reg(st, PC)))]
            && Reg(r, PC) == Add(Reg(st, PC), 1) && Reg(r, SP) == below
            && Top(r) == MemAt(st.mem, below)
  {
    var f := Fetch(cfg, st, false);
    assert f == FetchIllegal(cfg, st, MemAt(st.mem, Reg(st, PC)), false);
    StrideBack(cfg, Add(Reg(st, SP), Dir(cfg, -1)));
  }

  /** As written, an illegal opcode after an instruction of category OP
      does halt: the substituted HALT is executed. */
  lemma IllegalAfterOpHalts(cfg: Config, st: MState, env: Env)
    requires !st.halted && st.instr.OpI?
    requires MemAt(st.mem, Reg(st, PC)) !in cfg.decode
    ensures StepDefined(cfg, st, false)
    ensures var r := Step(cfg, st, env);
            r.halted && r.out == st.out + [IllegalCodeMsg(MemAt(st.mem, Reg(st, PC))), Line(HaltedText)]
            && Reg(r, PC) == Add(Reg(st, PC), 1) && r.mem == st.mem
  {
    var f := Fetch(cfg, st, false);
    assert f == FetchIllegal(cfg, st, MemAt(st.mem, Reg(st, PC)), false);
  }

  /** Corrected, an illegal opcode halts the machine whatever came before:
      one report, one "machine halted", PC past the opcode, nothing else
      changed. */
  lemma IllegalHaltsWhenFixed(cfg: Config, st: MState, env: Env)
    requires !st.halted
    requires MemAt(st.mem, Reg(st, PC)) !in cfg.decode
    ensures StepDefined(cfg, st, true)
    ensures var r := StepFixed(cfg, st, env);
            r.halted && r.out == st.out + [IllegalCodeMsg(MemAt(st.mem, Reg(st, PC))), Line(HaltedText)]
            && Reg(r, PC) == Add(Reg(st, PC), 1) && r.mem == st.mem
            && (forall q :: q != PC ==> Reg(r, q) == Reg(st, q))
  {
    var f := Fetch(cfg, st, true);
    assert f == FetchIllegal(cfg, st, MemAt(st.mem, Reg(st, PC)), true);
  }

  /** The corrections change nothing for a legal opcode other than LSR,
      ROL and ROR. */
  lemma FixedAgreesOnLegal(cfg: Config, st: MState, env: Env, i: Instr)
    requires Decodes(cfg, st, i)
    requires i.BinopI? ==> i.bop !in {BiLsr, BiRol, BiRor}
    requires StepDefined(cfg, st, false)
    ensures StepDefined(cfg, st, true)
    ensures StepFixed(cfg, st, env) == Step(cfg, st, env)
  {
    if !st.halted {
      assert Fetch(cfg, st, true) == FetchLegal(cfg, st, i) == Fetch(cfg, st, false);
    }
  }
}
