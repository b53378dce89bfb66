/** What each instruction does to the machine state, one law per
    instruction: the words it pops and pushes, the registers and memory
    cells it writes, the messages it reports, and that nothing else
    changes. Each law is stated on the state the instruction runs on, after
    the fetch; `MachineLaws.StepLegal` and its companions connect them to a
    whole step.
 */
module MachineEffects {
  import opened JavaInt
  import opened Instructions
  import opened Alu
  import opened MachineSpec
  import opened MachineLaws
  import Utils

  /** `s` agrees with `st` on every register outside `rs`. */
  predicate RegsKept(st: MState, s: MState, rs: set<Word>) {
    forall q :: q !in rs ==> Reg(s, q) == Reg(st, q)
  }

  /** `s` agrees with `st` on every memory cell outside `cells`. */
  predicate CellsKept(st: MState, s: MState, cells: set<Word>) {
    forall a :: a !in cells ==> MemAt(s.mem, a) == MemAt(st.mem, a)
  }

  /** `s` differs from `st` at most in the registers `rs` and the cells
      `cells`: the halted flag and the current instruction are the same. */
  predicate Keeps(st: MState, s: MState, rs: set<Word>, cells: set<Word>) {
    RegsKept(st, s, rs) && CellsKept(st, s, cells) && s.halted == st.halted && SameInstr(st, s)
  }

  function Up(cfg: Config, st: MState): Word {
    Add(Reg(st, SP), Dir(cfg, 1))
  }

  function Down(cfg: Config, st: MState): Word {
    Add(Reg(st, SP), Dir(cfg, -1))
  }

  /** The two words on top of the stack are at different addresses. */
  lemma DownIsNotTop(cfg: Config, sp: Word)
    ensures Add(sp, Dir(cfg, -1)) != sp && Add(sp, Dir(cfg, 1)) != sp
  {
    DirUnit(cfg);
  }

  /** Popping the top and pushing `v` overwrites the top with `v`. */
  lemma ReplaceTop(cfg: Config, st: MState, v: Word)
    ensures var r := Push(cfg, Pop(cfg, st).0, v);
            Reg(r, SP) == Reg(st, SP) && Top(r) == v
            && Keeps(st, r, {}, {Reg(st, SP)}) && r.out == st.out
  {
    var sp := Reg(st, SP);
    var s1 := Pop(cfg, st).0;
    StrideBack(cfg, sp);
    var r := Push(cfg, s1, v);
    assert Reg(s1, SP) == Add(sp, Dir(cfg, -1)) && s1.mem == st.mem;
    assert Reg(r, SP) == sp;
    assert RegsKept(st, r, {});
    assert CellsKept(st, r, {sp});
  }

  // ---------------------------------------------------------------------
  // UNOP and BRCC

  /** UNOP replaces the word on top by `execUnop` of it. */
  lemma UnopLaw(cfg: Config, st: MState, op: UnOp)
    ensures var r := ExecUnopCategory(cfg, st, UnopI(op));
            Reg(r, SP) == Reg(st, SP) && Top(r) == ExecUnop(op, Top(st))
            && Keeps(st, r, {}, {Reg(st, SP)}) && r.out == st.out
  {
    ReplaceTop(cfg, st, ExecUnop(op, Top(st)));
  }

  /** BRCC pops the status word and branches by its operand exactly when
      the word matches the instruction's condition. */
  lemma BrccLaw(cfg: Config, st: MState)
    requires st.instr.BrccI?
    ensures var r := ExecBrcc(cfg, st);
            var pc := Reg(st, PC);
            Reg(r, SP) == Down(cfg, st)
            && Reg(r, PC) == (if cfg.srMatches(st.instr.cond, Top(st)) then Add(pc, Opnd(st, 0)) else pc)
            && Keeps(st, r, {SP, PC}, {}) && r.out == st.out
  {
  }

  // ---------------------------------------------------------------------
  // Branches, calls and the stack adjustment

  /** ADJS moves SP by its operand in strides. */
  lemma AdjsLaw(cfg: Config, st: MState)
    ensures var r := ExecControl(cfg, st, IAdjs);
            Reg(r, SP) == Add(Reg(st, SP), Dir(cfg, Opnd(st, 0)))
            && Keeps(st, r, {SP}, {}) && r.out == st.out
  {
  }

  /** BRA adds its operand to PC. */
  lemma BraLaw(cfg: Config, st: MState)
    ensures var r := ExecControl(cfg, st, IBra);
            Reg(r, PC) == Add(Reg(st, PC), Opnd(st, 0))
            && Keeps(st, r, {PC}, {}) && r.out == st.out
  {
  }

  /** BRF pops the top and branches exactly when it is 0 (false). */
  lemma BrfLaw(cfg: Config, st: MState)
    ensures var r := ExecControl(cfg, st, IBrf);
            var pc := Reg(st, PC);
            Reg(r, SP) == Down(cfg, st)
            && Reg(r, PC) == (if Top(st) == 0 then Add(pc, Opnd(st, 0)) else pc)
            && Keeps(st, r, {SP, PC}, {}) && r.out == st.out
  {
  }

  /** BRT pops the top and branches exactly when it is not 0 (true). */
  lemma BrtLaw(cfg: Config, st: MState)
    ensures var r := ExecControl(cfg, st, IBrt);
            var pc := Reg(st, PC);
            Reg(r, SP) == Down(cfg, st)
            && Reg(r, PC) == (if Top(st) != 0 then Add(pc, Opnd(st, 0)) else pc)
            && Keeps(st, r, {SP, PC}, {}) && r.out == st.out
  {
  }

  /** JSR replaces the popped target address by the return address and
      jumps to the target. */
  lemma JsrLaw(cfg: Config, st: MState)
    ensures var r := ExecControl(cfg, st, IJsr);
            var sp := Reg(st, SP);
            Reg(r, SP) == sp && Top(r) == Reg(st, PC) && Reg(r, PC) == Top(st)
            && Keeps(st, r, {PC}, {sp}) && r.out == st.out
  {
    var s1 := Pop(cfg, st).0;
    assert Reg(s1, PC) == Reg(st, PC);
    var s2 := Push(cfg, s1, Reg(st, PC));
    assert ExecControl(cfg, st, IJsr) == SetReg(s2, PC, Top(st));
    ReplaceTop(cfg, st, Reg(st, PC));
    assert Reg(s2, SP) == Reg(st, SP) && Keeps(st, s2, {}, {Reg(st, SP)});
  }

  /** NOP changes nothing. */
  lemma NopLaw(cfg: Config, st: MState)
    ensures ExecControl(cfg, st, INop) == st
  {
  }

  /** HALT sets the halted flag and reports it, and changes no register
      and no memory cell. */
  lemma HaltLaw(cfg: Config, st: MState)
    ensures var r := ExecControl(cfg, st, IHalt);
            r.halted && r.out == st.out + [Line(HaltedText)]
            && r.regs == st.regs && r.mem == st.mem && SameInstr(st, r)
  {
  }

  // ---------------------------------------------------------------------
  // Loads

  /** LDS pushes the word its operand strides away from SP. */
  lemma LdsLaw(cfg: Config, st: MState)
    ensures var r := ExecLoad(cfg, st, ILds);
            Reg(r, SP) == Up(cfg, st)
            && Top(r) == MemAt(st.mem, Add(Reg(st, SP), Dir(cfg, Opnd(st, 0))))
            && Keeps(st, r, {SP}, {Up(cfg, st)}) && r.out == st.out
  {
  }

  /** LDA replaces the address on top by the word its operand strides
      away from it. */
  lemma LdaLaw(cfg: Config, st: MState)
    ensures var r := ExecLoad(cfg, st, ILda);
            Reg(r, SP) == Reg(st, SP)
            && Top(r) == MemAt(st.mem, Add(Top(st), Dir(cfg, Opnd(st, 0))))
            && Keeps(st, r, {}, {Reg(st, SP)}) && r.out == st.out
  {
    StrideBack(cfg, Reg(st, SP));
  }

  /** LDC pushes its operand. */
  lemma LdcLaw(cfg: Config, st: MState)
    ensures var r := ExecLoad(cfg, st, ILdc);
            Reg(r, SP) == Up(cfg, st) && Top(r) == Opnd(st, 0)
            && Keeps(st, r, {SP}, {Up(cfg, st)}) && r.out == st.out
  {
  }

  /** LDL pushes the local its operand strides away from MP. */
  lemma LdlLaw(cfg: Config, st: MState)
    ensures var r := ExecLoad(cfg, st, ILdl);
            Reg(r, SP) == Up(cfg, st)
            && Top(r) == MemAt(st.mem, Add(Reg(st, MP), Dir(cfg, Opnd(st, 0))))
            && Keeps(st, r, {SP}, {Up(cfg, st)}) && r.out == st.out
  {
  }

  /** LDAA adds its operand to the address on top, without the stride. */
  lemma LdaaLaw(cfg: Config, st: MState)
    ensures var r := ExecLoad(cfg, st, ILdaa);
            Reg(r, SP) == Reg(st, SP) && Top(r) == Add(Top(st), Opnd(st, 0))
            && Keeps(st, r, {}, {Reg(st, SP)}) && r.out == st.out
  {
    StrideBack(cfg, Reg(st, SP));
  }

  /** LDSA pushes the address its operand strides away from SP. */
  lemma LdsaLaw(cfg: Config, st: MState)
    ensures var r := ExecLoad(cfg, st, ILdsa);
            Reg(r, SP) == Up(cfg, st) && Top(r) == Add(Reg(st, SP), Dir(cfg, Opnd(st, 0)))
            && Keeps(st, r, {SP}, {Up(cfg, st)}) && r.out == st.out
  {
  }

  /** LDLA pushes the address its operand strides away from MP. */
  lemma LdlaLaw(cfg: Config, st: MState)
    ensures var r := ExecLoad(cfg, st, ILdla);
            Reg(r, SP) == Up(cfg, st) && Top(r) == Add(Reg(st, MP), Dir(cfg, Opnd(st, 0)))
            && Keeps(st, r, {SP}, {Up(cfg, st)}) && r.out == st.out
  {
  }

  /** LDR pushes the register its operand names. */
  lemma LdrLaw(cfg: Config, st: MState)
    ensures var r := ExecLoad(cfg, st, ILdr);
            Reg(r, SP) == Up(cfg, st) && Top(r) == Reg(st, Opnd(st, 0))
            && Keeps(st, r, {SP}, {Up(cfg, st)}) && r.out == st.out
  {
  }

  /** LDRR copies the register named by its second operand into the one
      named by its first. */
  lemma LdrrLaw(cfg: Config, st: MState)
    ensures var r := ExecLoad(cfg, st, ILdrr);
            Reg(r, Opnd(st, 0)) == Reg(st, Opnd(st, 1))
            && Keeps(st, r, {Opnd(st, 0)}, {}) && r.out == st.out
  {
  }

  /** LDMS pushes the block of `size` words that starts its operand
      strides away from SP. */
  lemma LdmsLaw(cfg: Config, st: MState)
    ensures var r := ExecLoad(cfg, st, ILdms);
            var from, size := Add(Reg(st, SP), Dir(cfg, Opnd(st, 0))), Opnd(st, 1);
            Reg(r, SP) == Add(Reg(st, SP), Dir(cfg, size))
            && (BlockInRange(cfg.stride, from, size) && BlockInRange(cfg.stride, Up(cfg, st), size) ==>
                  forall a :: MemAt(r.mem, a) == Moved(st.mem, cfg.stride, from, Up(cfg, st), 0, size, a))
            && RegsKept(st, r, {SP}) && r.halted == st.halted && r.out == st.out
  {
  }

  /** LDMA replaces the address on top by the block of `size` words that
      starts its operand strides away from that address. */
  lemma LdmaLaw(cfg: Config, st: MState)
    ensures var r := ExecLoad(cfg, st, ILdma);
            var from, size := Add(Top(st), Dir(cfg, Opnd(st, 0))), Opnd(st, 1);
            var sp := Reg(st, SP);
            Reg(r, SP) == Add(Down(cfg, st), Dir(cfg, size))
            && (BlockInRange(cfg.stride, from, size) && BlockInRange(cfg.stride, sp, size) ==>
                  forall a :: MemAt(r.mem, a) == Moved(st.mem, cfg.stride, from, sp, 0, size, a))
            && RegsKept(st, r, {SP}) && r.halted == st.halted && r.out == st.out
  {
    var s1 := Pop(cfg, st).0;
    var from, size := Add(Top(st), Dir(cfg, Opnd(st, 0))), Opnd(st, 1);
    assert ExecLoad(cfg, st, ILdma) == PushMultiple(cfg, s1, from, size);
    assert Reg(s1, SP) == Down(cfg, st) && s1.mem == st.mem && RegsKept(st, s1, {SP});
    StrideBack(cfg, Reg(st, SP));
  }

  /** LDML pushes the block of `size` locals that starts its operand
      strides away from MP. */
  lemma LdmlLaw(cfg: Config, st: MState)
    ensures var r := ExecLoad(cfg, st, ILdml);
            var from, size := Add(Reg(st, MP), Dir(cfg, Opnd(st, 0))), Opnd(st, 1);
            Reg(r, SP) == Add(Reg(st, SP), Dir(cfg, size))
            && (BlockInRange(cfg.stride, from, size) && BlockInRange(cfg.stride, Up(cfg, st), size) ==>
                  forall a :: MemAt(r.mem, a) == Moved(st.mem, cfg.stride, from, Up(cfg, st), 0, size, a))
            && RegsKept(st, r, {SP}) && r.halted == st.halted && r.out == st.out
  {
  }

  // ---------------------------------------------------------------------
  // Stores and swaps

  /** STS pops the top into the cell its operand strides away from the old SP. */
  lemma StsLaw(cfg: Config, st: MState)
    ensures var r := ExecStore(cfg, st, ISts);
            var addr := Add(Reg(st, SP), Dir(cfg, Opnd(st, 0)));
            Reg(r, SP) == Down(cfg, st) && MemAt(r.mem, addr) == Top(st)
            && Keeps(st, r, {SP}, {addr}) && r.out == st.out
  {
  }

  /** STA pops an address, then pops the word below it into the cell at
      that address plus the operand, without the stride. */
  lemma StaLaw(cfg: Config, st: MState)
    ensures var r := ExecStore(cfg, st, ISta);
            var addr := Add(Top(st), Opnd(st, 0));
            Reg(r, SP) == Add(Down(cfg, st), Dir(cfg, -1))
            && MemAt(r.mem, addr) == MemAt(st.mem, Down(cfg, st))
            && Keeps(st, r, {SP}, {addr}) && r.out == st.out
  {
  }

  /** STL pops the top into the local its operand strides away from MP. */
  lemma StlLaw(cfg: Config, st: MState)
    ensures var r := ExecStore(cfg, st, IStl);
            var addr := Add(Reg(st, MP), Dir(cfg, Opnd(st, 0)));
            Reg(r, SP) == Down(cfg, st) && MemAt(r.mem, addr) == Top(st)
            && Keeps(st, r, {SP}, {addr}) && r.out == st.out
  {
  }

  /** STR pops the top into the register its operand names. */
  lemma StrLaw(cfg: Config, st: MState)
    ensures var r := ExecStore(cfg, st, IStr);
            var q := Opnd(st, 0);
            Reg(r, q) == Top(st) && (q != SP ==> Reg(r, SP) == Down(cfg, st))
            && Keeps(st, r, {SP, q}, {}) && r.out == st.out
  {
  }

  /** SWP exchanges the two words on top of the stack. */
  lemma SwpLaw(cfg: Config, st: MState)
    ensures var r := ExecStore(cfg, st, ISwp);
            var sp, below := Reg(st, SP), Down(cfg, st);
            MemAt(r.mem, sp) == MemAt(st.mem, below) && MemAt(r.mem, below) == Top(st)
            && Keeps(st, r, {}, {sp, below}) && r.out == st.out
  {
    DownIsNotTop(cfg, Reg(st, SP));
  }

  /** SWPR exchanges the word on top with the register its operand names. */
  lemma SwprLaw(cfg: Config, st: MState)
    ensures var r := ExecStore(cfg, st, ISwpr);
            var q, sp := Opnd(st, 0), Reg(st, SP);
            MemAt(r.mem, sp) == Reg(st, q) && Reg(r, q) == Top(st)
            && Keeps(st, r, {q}, {sp}) && r.out == st.out
  {
  }

  /** SWPRR exchanges the two registers its operands name. */
  lemma SwprrLaw(cfg: Config, st: MState)
    ensures var r := ExecStore(cfg, st, ISwprr);
            var q1, q2 := Opnd(st, 0), Opnd(st, 1);
            Reg(r, q1) == Reg(st, q2) && Reg(r, q2) == Reg(st, q1)
            && Keeps(st, r, {q1, q2}, {}) && r.mem == st.mem && r.out == st.out
  {
  }

  /** STMS pops the top `size` words into the block that starts its operand
      strides away from the old SP. */
  lemma StmsLaw(cfg: Config, st: MState)
    ensures var r := ExecStore(cfg, st, IStms);
            var to, size := Add(Reg(st, SP), Dir(cfg, Opnd(st, 0))), Opnd(st, 1);
            var sp' := Add(Reg(st, SP), Dir(cfg, Neg(size)));
            var from := Add(sp', Dir(cfg, 1));
            Reg(r, SP) == sp'
            && (BlockInRange(cfg.stride, from, size) && BlockInRange(cfg.stride, to, size) ==>
                  forall a :: MemAt(r.mem, a) == Moved(st.mem, cfg.stride, from, to, 0, size, a))
            && RegsKept(st, r, {SP}) && r.halted == st.halted && r.out == st.out
  {
  }

  /** STMA pops an address, then pops the `size` words below it into the
      block at that address plus the operand, without the stride. */
  lemma StmaLaw(cfg: Config, st: MState)
    ensures var r := ExecStore(cfg, st, IStma);
            var to, size := Add(Top(st), Opnd(st, 0)), Opnd(st, 1);
            var sp' := Add(Down(cfg, st), Dir(cfg, Neg(size)));
            var from := Add(sp', Dir(cfg, 1));
            Reg(r, SP) == sp'
            && (BlockInRange(cfg.stride, from, size) && BlockInRange(cfg.stride, to, size) ==>
                  forall a :: MemAt(r.mem, a) == Moved(st.mem, cfg.stride, from, to, 0, size, a))
            && RegsKept(st, r, {SP}) && r.halted == st.halted && r.out == st.out
  {
    var s1 := Pop(cfg, st).0;
    var to, size := Add(Top(st), Opnd(st, 0)), Opnd(st, 1);
    assert ExecStore(cfg, st, IStma) == PopMultiple(cfg, s1, to, size);
    assert Reg(s1, SP) == Down(cfg, st) && s1.mem == st.mem && RegsKept(st, s1, {SP});
  }

  /** STML pops the top `size` words into the locals that start its operand
      strides away from MP. */
  lemma StmlLaw(cfg: Config, st: MState)
    ensures var r := ExecStore(cfg, st, IStml);
            var to, size := Add(Reg(st, MP), Dir(cfg, Opnd(st, 0))), Opnd(st, 1);
            var sp' := Add(Reg(st, SP), Dir(cfg, Neg(size)));
            var from := Add(sp', Dir(cfg, 1));
            Reg(r, SP) == sp'
            && (BlockInRange(cfg.stride, from, size) && BlockInRange(cfg.stride, to, size) ==>
                  forall a :: MemAt(r.mem, a) == Moved(st.mem, cfg.stride, from, to, 0, size, a))
            && RegsKept(st, r, {SP}) && r.halted == st.halted && r.out == st.out
  {
  }

  /** SWP twice leaves every register and every memory cell as it was. */
  lemma SwpTwice(cfg: Config, st: MState)
    ensures var r := ExecStore(cfg, ExecStore(cfg, st, ISwp), ISwp);
            RegsKept(st, r, {}) && CellsKept(st, r, {}) && r.out == st.out
  {
    SwpLaw(cfg, st);
    var r1 := ExecStore(cfg, st, ISwp);
    SwpLaw(cfg, r1);
  }

  /** STL k followed by LDL k pushes back the word STL stored, and SP and
      MP end where they started. */
  lemma StlThenLdl(cfg: Config, st: MState)
    ensures var r1 := ExecStore(cfg, st, IStl);
            var r := ExecLoad(cfg, r1, ILdl);
            Top(r) == Top(st) && Reg(r, SP) == Reg(st, SP) && Reg(r, MP) == Reg(st, MP)
  {
    var addr := Add(Reg(st, MP), Dir(cfg, Opnd(st, 0)));
    StlLaw(cfg, st);
    var r1 := ExecStore(cfg, st, IStl);
    assert Reg(r1, MP) == Reg(st, MP) && Opnd(r1, 0) == Opnd(st, 0);
    assert MemAt(r1.mem, addr) == Top(st);
    LdlLaw(cfg, r1);
    StrideBack(cfg, Reg(st, SP));
  }

  // ---------------------------------------------------------------------
  // Heap loads

  /** LDH replaces the address on top by the word at that address plus the
      operand, without the stride. */
  lemma LdhLaw(cfg: Config, st: MState)
    ensures var r := ExecHeap(cfg, st, ILdh);
            Reg(r, SP) == Reg(st, SP) && Top(r) == MemAt(st.mem, Add(Top(st), Opnd(st, 0)))
            && Keeps(st, r, {}, {Reg(st, SP)}) && r.out == st.out
  {
    StrideBack(cfg, Reg(st, SP));
  }

  /** LDMH replaces the address on top by the `size` words of the block
      that ends at that address minus the offset, computed without the
      stride. */
  lemma LdmhLaw(cfg: Config, st: MState)
    ensures var r := ExecHeap(cfg, st, ILdmh);
            var size := Opnd(st, 1);
            var from := Sub(Sub(Top(st), Opnd(st, 0)), Sub(size, 1));
            var sp := Reg(st, SP);
            Reg(r, SP) == Add(Down(cfg, st), Dir(cfg, size))
            && (BlockInRange(cfg.stride, from, size) && BlockInRange(cfg.stride, sp, size) ==>
                  forall a :: MemAt(r.mem, a) == Moved(st.mem, cfg.stride, from, sp, 0, size, a))
            && RegsKept(st, r, {SP}) && r.halted == st.halted && r.out == st.out
  {
    var s1 := Pop(cfg, st).0;
    var size := Opnd(st, 1);
    var from := Sub(Sub(Top(st), Opnd(st, 0)), Sub(size, 1));
    assert ExecHeap(cfg, st, ILdmh) == PushMultiple(cfg, s1, from, size);
    assert Reg(s1, SP) == Down(cfg, st) && s1.mem == st.mem && RegsKept(st, s1, {SP});
    StrideBack(cfg, Reg(st, SP));
  }

  /** An OP-category instruction the engine has no case for, or a fetched
      code of another category, only reports that it is not implemented. */
  lemma UnimplementedLaw(cfg: Config, st: MState, code: Instr, env: Env)
    requires !code.OpI? || GroupOf(code.op) == GOther
    ensures var r := ExecOp(cfg, st, code, env);
            r.out == st.out + [NotImplemented(st.instr, Utils.AsHex(st.instrPC))]
            && r.regs == st.regs && r.mem == st.mem && r.halted == st.halted && SameInstr(st, r)
  {
  }

  // ---------------------------------------------------------------------
  // TRAP

  /** The trap selected by the operand of TRAP, if its number is known. */
  predicate TrapIs(cfg: Config, st: MState, t: TrapOp) {
    Opnd(st, 0) in cfg.traps && cfg.traps[Opnd(st, 0)] == t
  }

  /** A TRAP with an unknown number does nothing. */
  lemma TrapUnknownLaw(cfg: Config, st: MState, env: Env)
    requires Opnd(st, 0) !in cfg.traps
    ensures ExecTrap(cfg, st, env) == st
  {
  }

  /** PR_INT pops the top and prints it in decimal on a line of its own. */
  lemma PrIntLaw(cfg: Config, st: MState, env: Env)
    requires TrapIs(cfg, st, TrPrInt)
    ensures var r := ExecTrap(cfg, st, env);
            Reg(r, SP) == Down(cfg, st) && r.out == st.out + [Line(ToDecimal(Top(st)))]
            && Keeps(st, r, {SP}, {})
  {
  }

  /** PR_CHAR pops the top and prints it as a code point. */
  lemma PrCharLaw(cfg: Config, st: MState, env: Env)
    requires TrapIs(cfg, st, TrPrChar)
    ensures var r := ExecTrap(cfg, st, env);
            Reg(r, SP) == Down(cfg, st) && r.out == st.out + [CodePoint(Top(st))]
            && Keeps(st, r, {SP}, {})
  {
  }

  /** IN_INT pushes the integer the prompt answers. */
  lemma InIntLaw(cfg: Config, st: MState, env: Env)
    requires TrapIs(cfg, st, TrInInt)
    ensures var r := ExecTrap(cfg, st, env);
            Reg(r, SP) == Up(cfg, st) && Top(r) == env.promptInt
            && Keeps(st, r, {SP}, {Up(cfg, st)}) && r.out == st.out
  {
  }

  /** IN_CHAR pushes the character the prompt answers. */
  lemma InCharLaw(cfg: Config, st: MState, env: Env)
    requires TrapIs(cfg, st, TrInChar)
    ensures var r := ExecTrap(cfg, st, env);
            Reg(r, SP) == Up(cfg, st) && Top(r) == env.promptChar
            && Keeps(st, r, {SP}, {Up(cfg, st)}) && r.out == st.out
  {
  }

  /** The stack from `sp` has room for `n` more words within the
      non-negative addresses. */
  predicate StackRoom(s: Stride, sp: Word, n: nat) {
    0 <= sp && 0 <= sp + Along(s, n) < TwoTo31
  }

  /** Cell `a` after `cs` is pushed from its last word to its first on a
      stack whose top was at `sp`: `j` strides above `sp` lies
      `cs[|cs| - j]`, so the first word ends on top. */
  function PushedCell(m: map<Word, Word>, s: Stride, sp: Word, cs: seq<Word>, a: Word): Word {
    var j := Along(s, a - sp);
    if 1 <= j <= |cs| then cs[|cs| - j] else MemAt(m, a)
  }

  /** Pushing the last word of `cs` one stride above `sp` and then the
      others reversed fills the cells as pushing all of `cs` reversed. */
  lemma PushedCellShift(m1: map<Word, Word>, m: map<Word, Word>, s: Stride, sp: Word, sp1: Word, cs: seq<Word>, a: Word)
    requires |cs| > 0 && sp1 == sp + s
    requires forall b {:trigger MemAt(m1, b)} :: MemAt(m1, b) == if b == sp1 then cs[|cs| - 1] else MemAt(m, b)
    ensures PushedCell(m1, s, sp1, cs[..|cs| - 1], a) == PushedCell(m, s, sp, cs, a)
  {
    var j, n := Along(s, a - sp), |cs|;
    assert Along(s, a - sp1) == j - 1;
    if 2 <= j <= n {
      assert cs[..n - 1][n - 1 - (j - 1)] == cs[n - j];
    }
  }

  /** `PushReversed` leaves the first word on top, the others below it in
      order, and every other cell as it was. */
  lemma {:induction false} PushReversedOrder(cfg: Config, st: MState, cs: seq<Word>)
    requires StackRoom(cfg.stride, Reg(st, SP), |cs|)
    ensures var r := PushReversed(cfg, st, cs);
            var sp := Reg(st, SP);
            Reg(r, SP) == sp + Along(cfg.stride, |cs|)
            && (forall a {:trigger MemAt(r.mem, a)} :: MemAt(r.mem, a) == PushedCell(st.mem, cfg.stride, sp, cs, a))
            && RegsKept(st, r, {SP}) && r.halted == st.halted
    decreases |cs|
  {
    var s, sp, n := cfg.stride, Reg(st, SP), |cs|;
    if n > 0 {
      assert 0 <= sp + s < TwoTo31;
      var sp1: Word := sp + s;
      var st1 := Push(cfg, st, cs[n - 1]);
      assert Reg(st1, SP) == sp1;
      var rest := cs[..n - 1];
      PushReversedOrder(cfg, st1, rest);
      assert forall b {:trigger MemAt(st1.mem, b)} :: MemAt(st1.mem, b) == if b == sp1 then cs[n - 1] else MemAt(st.mem, b);
      forall a
        ensures PushedCell(st1.mem, s, sp1, rest, a) == PushedCell(st.mem, s, sp, cs, a)
      {
        PushedCellShift(st1.mem, st.mem, s, sp, sp1, cs, a);
      }
    }
  }

  /** After pushing `cs` reversed, its first word is on top and its last
      word one stride above the old top. */
  lemma PushedCellEnds(m: map<Word, Word>, s: Stride, sp: Word, cs: seq<Word>)
    requires |cs| > 0 && StackRoom(s, sp, |cs|)
    ensures PushedCell(m, s, sp, cs, sp + Along(s, |cs|)) == cs[0]
    ensures PushedCell(m, s, sp, cs, sp + Along(s, 1)) == cs[|cs| - 1]
  {
  }

  /** Pushing 0 and then `cs` reversed is pushing `cs + [0]` reversed. */
  lemma PushTerminatorFirst(cfg: Config, st: MState, cs: seq<Word>)
    ensures PushReversed(cfg, Push(cfg, st, 0), cs) == PushReversed(cfg, st, cs + [0])
  {
    assert (cs + [0])[..|cs|] == cs;
  }

  /** Pushing `cs + [0]` reversed leaves the first word on top, the others
      below it in order, then the 0. */
  lemma PushTerminatedCells(cfg: Config, st: MState, cs: seq<Word>)
    requires StackRoom(cfg.stride, Reg(st, SP), |cs| + 1)
    ensures var r := PushReversed(cfg, st, cs + [0]);
            var sp, s := Reg(st, SP), cfg.stride;
            Reg(r, SP) == sp + Along(s, |cs| + 1)
            && (|cs| > 0 ==> Top(r) == cs[0])
            && MemAt(r.mem, sp + Along(s, 1)) == 0
            && (forall a {:trigger MemAt(r.mem, a)} :: MemAt(r.mem, a) == PushedCell(st.mem, s, sp, cs + [0], a))
            && RegsKept(st, r, {SP}) && r.halted == st.halted && r.out == st.out
  {
    var sp, s := Reg(st, SP), cfg.stride;
    var cs0 := cs + [0];
    PushReversedOrder(cfg, st, cs0);
    PushedCellEnds(st.mem, s, sp, cs0);
    assert cs0[|cs0| - 1] == 0;
    assert |cs| > 0 ==> cs0[0] == cs[0];
  }

  /** Pushing 0 and then `cs` from its last word to its first leaves the
      first word on top, the others below it in order, then the 0. */
  lemma PushTerminatedLaw(cfg: Config, st: MState, cs: seq<Word>)
    requires StackRoom(cfg.stride, Reg(st, SP), |cs| + 1)
    ensures var r := PushReversed(cfg, Push(cfg, st, 0), cs);
            var sp, s := Reg(st, SP), cfg.stride;
            Reg(r, SP) == sp + Along(s, |cs| + 1)
            && (|cs| > 0 ==> Top(r) == cs[0])
            && MemAt(r.mem, sp + Along(s, 1)) == 0
            && (forall a {:trigger MemAt(r.mem, a)} :: MemAt(r.mem, a) == PushedCell(st.mem, s, sp, cs + [0], a))
            && RegsKept(st, r, {SP}) && r.halted == st.halted && r.out == st.out
  {
    PushTerminatorFirst(cfg, st, cs);
    PushTerminatedCells(cfg, st, cs);
  }

  /** IN_CHAR_ARRAY pushes 0 and then the answered characters from the
      last to the first: the first character ends on top, the others follow
      below it in order, then the 0. */
  lemma InCharArrayLaw(cfg: Config, st: MState, env: Env)
    requires TrapIs(cfg, st, TrInCharArray)
    requires StackRoom(cfg.stride, Reg(st, SP), |env.promptChars| + 1)
    ensures var r := ExecTrap(cfg, st, env);
            var cs, sp, s := env.promptChars, Reg(st, SP), cfg.stride;
            Reg(r, SP) == sp + Along(s, |cs| + 1)
            && (|cs| > 0 ==> Top(r) == cs[0])
            && MemAt(r.mem, sp + Along(s, 1)) == 0
            && (forall a {:trigger MemAt(r.mem, a)} :: MemAt(r.mem, a) == PushedCell(st.mem, s, sp, cs + [0], a))
            && RegsKept(st, r, {SP}) && r.halted == st.halted && r.out == st.out
  {
    assert ExecTrap(cfg, st, env) == PushReversed(cfg, Push(cfg, st, 0), env.promptChars);
    PushTerminatedLaw(cfg, st, env.promptChars);
  }

  /** The `k`-th word popped from a stack whose top is at `sp`. */
  function PoppedWord(m: map<Word, Word>, s: Stride, sp: Word, k: nat): Word {
    MemAt(m, Wrap(sp - Along(s, k)))
  }

  /** What FILE_OPEN's name loop leaves, starting from `st`: the name is
      the characters of the words popped before the first 0 (or before the
      length bound), and SP is below that 0. */
  predicate NamePopped(cfg: Config, st: MState, r: MState, name: seq<nat>) {
    var s, sp := cfg.stride, Reg(st, SP);
    |name| <= MaxNameLength
    && (forall k :: 0 <= k < |name| ==>
          PoppedWord(st.mem, s, sp, k) != 0 && name[k] == CharOf(PoppedWord(st.mem, s, sp, k)))
    && (|name| < MaxNameLength ==> PoppedWord(st.mem, s, sp, |name|) == 0)
    && Reg(r, SP) == Wrap(sp - Along(s, |name| + 1))
    && RegsKept(st, r, {SP}) && r.mem == st.mem && r.out == st.out && r.halted == st.halted
  }

  /** Popping the `k`-th word from where the stack was at `st0`. */
  lemma PopNext(cfg: Config, st0: MState, st: MState, k: nat)
    requires st.mem == st0.mem && Reg(st, SP) == Wrap(Reg(st0, SP) - Along(cfg.stride, k))
    ensures var (s1, m) := Pop(cfg, st);
            m == PoppedWord(st0.mem, cfg.stride, Reg(st0, SP), k)
            && Reg(s1, SP) == Wrap(Reg(st0, SP) - Along(cfg.stride, k + 1))
  {
    WrapAdd(Reg(st0, SP) - Along(cfg.stride, k), -(cfg.stride as int));
  }

  /** What the name loop knows before its `|name|`-th pop: the word `n`
      just popped, SP below it, and the name read so far. */
  predicate NameSoFar(cfg: Config, st0: MState, st: MState, n: Word, name: seq<nat>) {
    var s, sp := cfg.stride, Reg(st0, SP);
    |name| <= MaxNameLength && st.mem == st0.mem && st.out == st0.out && st.halted == st0.halted
    && n == PoppedWord(st0.mem, s, sp, |name|)
    && Reg(st, SP) == Wrap(sp - Along(s, |name| + 1)) && RegsKept(st0, st, {SP})
    && forall k :: 0 <= k < |name| ==>
         PoppedWord(st0.mem, s, sp, k) != 0 && name[k] == CharOf(PoppedWord(st0.mem, s, sp, k))
  }

  /** One more pop of a non-zero word extends the name by its character. */
  lemma NameStep(cfg: Config, st0: MState, st: MState, n: Word, name: seq<nat>)
    requires NameSoFar(cfg, st0, st, n, name) && n != 0 && |name| < MaxNameLength
    ensures var (s1, m) := Pop(cfg, st);
            NameSoFar(cfg, st0, s1, m, name + [CharOf(n)])
  {
    var s, sp0, i := cfg.stride, Reg(st0, SP), |name|;
    var (s1, m) := Pop(cfg, st);
    PopNext(cfg, st0, st, i + 1);
    var name' := name + [CharOf(n)];
    forall k | 0 <= k < |name'|
      ensures PoppedWord(st0.mem, s, sp0, k) != 0 && name'[k] == CharOf(PoppedWord(st0.mem, s, sp0, k))
    {
      if k < i {
        assert name'[k] == name[k];
      }
    }
    assert RegsKept(st0, s1, {SP});
  }

  /** The name loop from its `|name|`-th pop on, with `fuel` pops left,
      ends as `NamePopped` describes for the whole loop. */
  lemma {:induction false} PopNameFromLaw(cfg: Config, st0: MState, st: MState, n: Word, name: seq<nat>, fuel: nat)
    requires |name| + fuel == MaxNameLength && NameSoFar(cfg, st0, st, n, name)
    ensures var r := PopNameFrom(cfg, st, n, name, fuel);
            NamePopped(cfg, st0, r.0, r.1)
    decreases fuel
  {
    if n != 0 && fuel != 0 {
      var (s1, m) := Pop(cfg, st);
      NameStep(cfg, st0, st, n, name);
      var r := PopNameFrom(cfg, s1, m, name + [CharOf(n)], fuel - 1);
      assert PopNameFrom(cfg, st, n, name, fuel) == r;
      PopNameFromLaw(cfg, st0, s1, m, name + [CharOf(n)], fuel - 1);
      assert NamePopped(cfg, st0, r.0, r.1);
    } else {
      assert PopNameFrom(cfg, st, n, name, fuel) == (st, name);
      NameEnd(cfg, st0, st, n, name);
    }
  }

  /** The name loop stops at a 0 word or at the length bound. */
  lemma NameEnd(cfg: Config, st0: MState, st: MState, n: Word, name: seq<nat>)
    requires NameSoFar(cfg, st0, st, n, name) && (n == 0 || |name| == MaxNameLength)
    ensures NamePopped(cfg, st0, st, name)
  {
  }

  /** FILE_OPEN's name loop pops the words down to the first 0 and reads
      the name from the words above it, the top first. */
  lemma PopNameLaw(cfg: Config, st: MState)
    ensures var (r, name) := PopName(cfg, st);
            NamePopped(cfg, st, r, name)
  {
    var (s1, n) := Pop(cfg, st);
    assert Wrap(Reg(st, SP) - Along(cfg.stride, 0)) == Reg(st, SP);
    PopNameFromLaw(cfg, st, s1, n, [], MaxNameLength);
  }

  /** FILE_OPEN_READ and FILE_OPEN_WRITE pop the name, then push the handle
      the file table returns for it, or report that the file was not found. */
  lemma FileOpenLaw(cfg: Config, st: MState, env: Env)
    requires TrapIs(cfg, st, TrFileOpenRead) || TrapIs(cfg, st, TrFileOpenWrite)
    ensures var r := ExecTrap(cfg, st, env);
            var (s1, name) := PopName(cfg, st);
            NamePopped(cfg, st, s1, name) && r.halted == st.halted && SameInstr(st, r)
            && match env.openFile(name, TrapIs(cfg, st, TrFileOpenRead))
               case Opened(h) =>
                 Reg(r, SP) == Add(Reg(s1, SP), Dir(cfg, 1)) && Top(r) == h && r.out == st.out
                 && RegsKept(st, r, {SP}) && CellsKept(st, r, {Reg(r, SP)})
               case OpenFailed =>
                 Reg(r, SP) == Reg(s1, SP) && r.out == st.out + [FileNotFound(name)]
                 && RegsKept(st, r, {SP}) && r.mem == st.mem
  {
    PopNameLaw(cfg, st);
  }

  /** FILE_READ (`TrapRead`, what `ExecTrap` runs for it) replaces the
      handle on top by the word read, or pops it and reports the error. */
  lemma FileReadLaw(cfg: Config, st: MState, env: Env)
    ensures var r := TrapRead(cfg, st, env);
            var sp := Reg(st, SP);
            match env.readFile(Top(st))
            case FileValue(v) =>
              Reg(r, SP) == sp && Top(r) == v && Keeps(st, r, {}, {sp}) && r.out == st.out
            case FileIOError =>
              Reg(r, SP) == Down(cfg, st) && Keeps(st, r, {SP}, {})
              && r.out == st.out + [Line(ReadErrorText)]
            case InvalidHandle =>
              Reg(r, SP) == Down(cfg, st) && Keeps(st, r, {SP}, {})
              && r.out == st.out + [Line(BadHandleText)]
  {
    var s1 := Pop(cfg, st).0;
    var w := env.readFile(Top(st));
    if w.FileValue? {
      assert TrapRead(cfg, st, env) == Push(cfg, s1, w.value);
      ReplaceTop(cfg, st, w.value);
    } else {
      assert TrapRead(cfg, st, env) == Say(s1, FileErrorMsg(w, ReadErrorText));
      assert RegsKept(st, s1, {SP}) && CellsKept(st, s1, {});
    }
  }

  /** FILE_WRITE (`TrapWrite`, what `ExecTrap` runs for it) pops the
      handle, then the word, and pushes the status the file table returns,
      or reports the error. */
  lemma FileWriteLaw(cfg: Config, st: MState, env: Env)
    ensures var r := TrapWrite(cfg, st, env);
            var below := Down(cfg, st);
            match env.writeFile(Top(st), MemAt(st.mem, below))
            case FileValue(v) =>
              Reg(r, SP) == below && Top(r) == v && Keeps(st, r, {SP}, {below}) && r.out == st.out
            case FileIOError =>
              Reg(r, SP) == Add(below, Dir(cfg, -1)) && Keeps(st, r, {SP}, {})
              && r.out == st.out + [Line(WriteErrorText)]
            case InvalidHandle =>
              Reg(r, SP) == Add(below, Dir(cfg, -1)) && Keeps(st, r, {SP}, {})
              && r.out == st.out + [Line(BadHandleText)]
  {
    var (s1, h) := Pop(cfg, st);
    var (s2, v) := Pop(cfg, s1);
    var w := env.writeFile(h, v);
    var r := TrapWrite(cfg, st, env);
    assert r == if w.FileValue? then Push(cfg, s2, w.value)
                else Say(s2, FileErrorMsg(w, WriteErrorText));
    assert RegsKept(st, s2, {SP}) && s2.mem == st.mem;
    if w.FileValue? {
      StrideBack(cfg, Down(cfg, st));
    }
  }

  /** FILE_CLOSE (`TrapClose`, what `ExecTrap` runs for it) pops the
      handle and reports a failed close. */
  lemma FileCloseLaw(cfg: Config, st: MState, env: Env)
    ensures var r := TrapClose(cfg, st, env);
            Reg(r, SP) == Down(cfg, st) && Keeps(st, r, {SP}, {})
            && r.out == st.out + match env.closeFile(Top(st))
                                 case Closed => []
                                 case CloseIOError => [Line(CloseErrorText)]
                                 case CloseInvalidHandle => [Line(BadHandleText)]
  {
    var s1 := Pop(cfg, st).0;
    var r := TrapClose(cfg, st, env);
    assert r.regs == s1.regs && r.mem == st.mem;
  }
}
