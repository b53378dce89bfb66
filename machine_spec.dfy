/** The fetch–decode–execute engine as functions on a machine state.

    `Step` is one call of `executeOne`: unless the machine is halted it
    fetches the instruction at PC, then dispatches on the category of the
    current instruction and on the fetched code. Registers and memory are
    maps of words in which an absent entry reads as 0; the stack moves by
    the configured stride `dir(1)`. What the prompts and the file table
    answer during a step is given by an `Env`.

    `fixed` selects the corrected engine: an illegal opcode then also
    becomes the current instruction, and LSR, ROL and ROR shift logically
    and rotate. The engine as written is `fixed == false`.
 */
module MachineSpec {
  import opened JavaInt
  import opened Instructions
  import opened Alu
  import Utils

  /** What the engine writes to its messenger: a line (`println`), the text
      of a code point (`print`), or one of the two messages built from
      other parts of the system. */
  datatype Msg =
    | Line(text: string)
    | CodePoint(cp: Word)
    | FileNotFound(name: seq<nat>)
    | NotImplemented(instr: Instr, at: string)

  /** The fixed texts the engine prints. */
  const HaltedText := "machine halted"
  const ReadErrorText := "Error: cannot read from file."
  const WriteErrorText := "Error: cannot write to file."
  const CloseErrorText := "Error: cannot close file."
  const BadHandleText := "Error: invalid file pointer."

  datatype OpenResult = Opened(handle: Word) | OpenFailed
  datatype FileResult = FileValue(value: Word) | FileIOError | InvalidHandle
  datatype CloseResult = Closed | CloseIOError | CloseInvalidHandle

  /** The answers of the messenger's prompts and of the file table for one
      step: the file name is given as UTF-16 code units. */
  datatype Env = Env(
    promptInt: Word,
    promptChar: Word,
    promptChars: seq<Word>,
    openFile: (seq<nat>, bool) -> OpenResult,
    readFile: Word -> FileResult,
    writeFile: (Word, Word) -> FileResult,
    closeFile: Word -> CloseResult)

  /** The machine: registers, memory, the halted flag, the current
      instruction with its address and inline operands, and the messages
      written so far. */
  datatype MState = MState(
    regs: map<Word, Word>,
    mem: map<Word, Word>,
    halted: bool,
    instr: Instr,
    instrPC: Word,
    opnds: seq<Word>,
    out: seq<Msg>)

  /** Executing an instruction leaves the current instruction, its address
      and its operands alone; only fetching changes them. */
  predicate SameInstr(st: MState, s: MState) {
    s.instr == st.instr && s.instrPC == st.instrPC && s.opnds == st.opnds
  }

  /** The current instruction has as many inline operands as it declares. */
  predicate Valid(st: MState) {
    |st.opnds| == Arity(st.instr)
  }

  function MemAt(m: map<Word, Word>, a: Word): Word {
    if a in m then m[a] else 0
  }

  function Reg(st: MState, r: Word): Word {
    if r in st.regs then st.regs[r] else 0
  }

  function SetReg(st: MState, r: Word, v: Word): (s: MState)
    ensures Reg(s, r) == v
    ensures forall q :: q != r ==> Reg(s, q) == Reg(st, q)
  {
    st.(regs := st.regs[r := v])
  }

  function SetMem(st: MState, a: Word, v: Word): MState {
    st.(mem := st.mem[a := v])
  }

  /** `registers.adjustReg(r, d)`. */
  function AdjustReg(st: MState, r: Word, d: Word): MState {
    SetReg(st, r, Add(Reg(st, r), d))
  }

  /** The word on top of the stack. */
  function Top(st: MState): Word {
    MemAt(st.mem, Reg(st, SP))
  }

  /** The i-th inline operand; an operand the instruction does not have
      reads as 0 (it is never used on a `Valid` state). */
  function Opnd(st: MState, i: nat): Word {
    if i < |st.opnds| then st.opnds[i] else 0
  }

  function Say(st: MState, m: Msg): (s: MState)
    ensures s.out == st.out + [m]
  {
    st.(out := st.out + [m])
  }

  /** `x` steps along the stride: `stride * x`, written without the
      multiplication since the stride is 1 or -1. */
  function Along(s: Stride, x: int): int {
    if s == 1 then x else -x
  }

  /** `dir(v)`: `v` in units of the stride, with Java's wrap-around. */
  function Dir(cfg: Config, v: int): Word {
    Wrap(Along(cfg.stride, v))
  }

  // ---------------------------------------------------------------------
  // Stack primitives

  /** `push(v)`: move SP one stride up, then store `v` there. */
  function Push(cfg: Config, st: MState, v: Word): (s: MState)
    ensures Reg(s, SP) == Add(Reg(st, SP), Dir(cfg, 1))
    ensures Top(s) == v
    ensures forall r :: r != SP ==> Reg(s, r) == Reg(st, r)
    ensures forall a :: a != Reg(s, SP) ==> MemAt(s.mem, a) == MemAt(st.mem, a)
    ensures s.halted == st.halted && s.instr == st.instr && s.opnds == st.opnds
    ensures s.instrPC == st.instrPC && s.out == st.out
  {
    var sp := Add(Reg(st, SP), Dir(cfg, 1));
    SetMem(SetReg(st, SP, sp), sp, v)
  }

  /** `pop()`: the word on top, and SP one stride down. */
  function Pop(cfg: Config, st: MState): (r: (MState, Word))
    ensures r.1 == Top(st)
    ensures Reg(r.0, SP) == Add(Reg(st, SP), Dir(cfg, -1))
    ensures forall q :: q != SP ==> Reg(r.0, q) == Reg(st, q)
    ensures r.0.mem == st.mem && r.0.halted == st.halted && r.0.instr == st.instr
    ensures r.0.opnds == st.opnds && r.0.instrPC == st.instrPC && r.0.out == st.out
  {
    (SetReg(st, SP, Add(Reg(st, SP), Dir(cfg, -1))), Top(st))
  }

  /** The ascending loop of `copyMem`, from index `i` on. */
  function CopyUp(cfg: Config, m: map<Word, Word>, from: Word, to: Word, size: Word, i: nat): map<Word, Word>
    decreases size - i
  {
    if i >= size then m
    else
      CopyUp(cfg, m[Add(to, Dir(cfg, i)) := MemAt(m, Add(from, Dir(cfg, i)))], from, to, size, i + 1)
  }

  /** The descending loop of `copyMem`, from index `i` down to 0. */
  function CopyDown(cfg: Config, m: map<Word, Word>, from: Word, to: Word, i: int): map<Word, Word>
    decreases i + 1
  {
    if i < 0 then m
    else
      CopyDown(cfg, m[Add(to, Dir(cfg, i)) := MemAt(m, Add(from, Dir(cfg, i)))], from, to, i - 1)
  }

  /** A block of `size` words from `base` in the direction of the stride
      lies within the non-negative addresses. */
  predicate BlockInRange(s: Stride, base: Word, size: Word) {
    size >= 0 && base >= 0 && (size == 0 || 0 <= base + Along(s, size - 1) < TwoTo31)
  }

  /** The memory after the block steps `lo` to `hi - 1` of a move from
      `from` to `to` have each read their source cell in the original
      memory `m`: step `j` writes `to + j` strides. */
  function Moved(m: map<Word, Word>, s: Stride, from: Word, to: Word, lo: int, hi: int, a: Word): Word {
    var j := Along(s, a - to);
    if lo <= j < hi then MemAt(m, Wrap(from + Along(s, j))) else MemAt(m, a)
  }

  /** Inside a block the stride arithmetic does not wrap. */
  lemma BlockAddress(cfg: Config, base: Word, size: Word, i: int)
    requires BlockInRange(cfg.stride, base, size) && 0 <= i < size
    ensures Dir(cfg, i) == Along(cfg.stride, i)
    ensures Add(base, Dir(cfg, i)) == base + Along(cfg.stride, i)
  {
    if cfg.stride == 1 {
      assert base + i < TwoTo31;
    } else {
      assert base - i >= 0;
    }
  }

  /** The ascending copy reads each source cell before any write reaches it
      when the destination does not lie further along the stride. */
  lemma CopyUpStep(cfg: Config, m0: map<Word, Word>, m: map<Word, Word>, from: Word, to: Word, size: Word, i: nat)
    requires BlockInRange(cfg.stride, from, size) && BlockInRange(cfg.stride, to, size)
    requires i < size && Along(cfg.stride, to - from) <= 0
    requires forall a {:trigger MemAt(m, a)} :: MemAt(m, a) == Moved(m0, cfg.stride, from, to, 0, i, a)
    ensures var m' := m[Add(to, Dir(cfg, i)) := MemAt(m, Add(from, Dir(cfg, i)))];
            forall a {:trigger MemAt(m', a)} :: MemAt(m', a) == Moved(m0, cfg.stride, from, to, 0, i + 1, a)
  {
    var s := cfg.stride;
    BlockAddress(cfg, from, size, i);
    BlockAddress(cfg, to, size, i);
    var src, dst := Add(from, Dir(cfg, i)), Add(to, Dir(cfg, i));
    assert Moved(m0, s, from, to, 0, i, src) == MemAt(m0, src) by {
      if s == 1 { assert src - to >= i; } else { assert -(src - to) >= i; }
    }
    var m' := m[dst := MemAt(m, src)];
    forall a: Word
      ensures MemAt(m', a) == Moved(m0, s, from, to, 0, i + 1, a)
    {
      if a == dst {
        assert MemAt(m', a) == MemAt(m, src);
        assert Along(s, a - to) == i;
      } else {
        assert MemAt(m', a) == MemAt(m, a);
        assert Along(s, a - to) != i;
      }
    }
  }

  /** One step of the ascending copy: after writing cell `i` the rest of
      the loop determines cell `a`. */
  lemma CopyUpLink(cfg: Config, m: map<Word, Word>, from: Word, to: Word, size: Word, i: nat, a: Word)
    ensures var m' := m[Add(to, Dir(cfg, i)) := MemAt(m, Add(from, Dir(cfg, i)))];
            MemAt(CopyUp(cfg, m, from, to, size, i), a)
            == if i < size then MemAt(CopyUp(cfg, m', from, to, size, i + 1), a) else MemAt(m, a)
  {
  }

  /** From step `i` on, the ascending copy leaves cell `a` as the whole
      move prescribes. */
  lemma {:induction false} CopyUpMoves(cfg: Config, m0: map<Word, Word>, m: map<Word, Word>, from: Word, to: Word, size: Word, i: nat, a: Word)
    requires BlockInRange(cfg.stride, from, size) && BlockInRange(cfg.stride, to, size)
    requires i <= size && Along(cfg.stride, to - from) <= 0
    requires forall a {:trigger MemAt(m, a)} :: MemAt(m, a) == Moved(m0, cfg.stride, from, to, 0, i, a)
    ensures MemAt(CopyUp(cfg, m, from, to, size, i), a) == Moved(m0, cfg.stride, from, to, 0, size, a)
    decreases size - i
  {
    CopyUpLink(cfg, m, from, to, size, i, a);
    var want := Moved(m0, cfg.stride, from, to, 0, size, a);
    if i < size {
      CopyUpStep(cfg, m0, m, from, to, size, i);
      var m' := m[Add(to, Dir(cfg, i)) := MemAt(m, Add(from, Dir(cfg, i)))];
      CopyUpMoves(cfg, m0, m', from, to, size, i + 1, a);
      assert MemAt(CopyUp(cfg, m', from, to, size, i + 1), a) == want;
    } else {
      assert i == size;
      assert MemAt(CopyUp(cfg, m, from, to, size, i), a) == MemAt(m, a);
      assert MemAt(m, a) == Moved(m0, cfg.stride, from, to, 0, i, a);
    }
  }

  /** The descending copy reads each source cell before any write reaches it
      when the destination lies further along the stride. */
  lemma CopyDownStep(cfg: Config, m0: map<Word, Word>, m: map<Word, Word>, from: Word, to: Word, size: Word, i: nat)
    requires BlockInRange(cfg.stride, from, size) && BlockInRange(cfg.stride, to, size)
    requires i < size && Along(cfg.stride, to - from) > 0
    requires forall a :: MemAt(m, a) == Moved(m0, cfg.stride, from, to, i + 1, size, a)
    ensures var m' := m[Add(to, Dir(cfg, i)) := MemAt(m, Add(from, Dir(cfg, i)))];
            forall a :: MemAt(m', a) == Moved(m0, cfg.stride, from, to, i, size, a)
  {
    var s := cfg.stride;
    BlockAddress(cfg, from, size, i);
    BlockAddress(cfg, to, size, i);
    var src, dst := Add(from, Dir(cfg, i)), Add(to, Dir(cfg, i));
    assert Moved(m0, s, from, to, i + 1, size, src) == MemAt(m0, src) by {
      if s == 1 { assert src - to < i; } else { assert -(src - to) < i; }
    }
    var m' := m[dst := MemAt(m, src)];
    forall a: Word
      ensures MemAt(m', a) == Moved(m0, s, from, to, i, size, a)
    {
      if a == dst {
        assert MemAt(m', a) == MemAt(m, src);
        assert Along(s, a - to) == i;
      } else {
        assert MemAt(m', a) == MemAt(m, a);
        assert Along(s, a - to) != i;
      }
    }
  }

  lemma {:induction false} CopyDownMoves(cfg: Config, m0: map<Word, Word>, m: map<Word, Word>, from: Word, to: Word, size: Word, i: int)
    requires BlockInRange(cfg.stride, from, size) && BlockInRange(cfg.stride, to, size)
    requires -1 <= i < size && Along(cfg.stride, to - from) > 0
    requires forall a :: MemAt(m, a) == Moved(m0, cfg.stride, from, to, i + 1, size, a)
    ensures forall a :: MemAt(CopyDown(cfg, m, from, to, i), a) == Moved(m0, cfg.stride, from, to, 0, size, a)
    decreases i + 1
  {
    if i >= 0 {
      CopyDownStep(cfg, m0, m, from, to, size, i);
      var m' := m[Add(to, Dir(cfg, i)) := MemAt(m, Add(from, Dir(cfg, i)))];
      assert CopyDown(cfg, m, from, to, i) == CopyDown(cfg, m', from, to, i - 1);
      CopyDownMoves(cfg, m0, m', from, to, size, i - 1);
    } else {
      assert CopyDown(cfg, m, from, to, i) == m;
    }
  }

  /** Whichever loop `copyMem` picks, it moves the block as memmove does. */
  lemma CopyLoopsMove(cfg: Config, m: map<Word, Word>, from: Word, to: Word, size: Word)
    ensures BlockInRange(cfg.stride, from, size) && BlockInRange(cfg.stride, to, size) ==>
              forall a :: MemAt(if Dir(cfg, from) < Dir(cfg, to) then CopyDown(cfg, m, from, to, Sub(size, 1))
                                else CopyUp(cfg, m, from, to, size, 0), a)
                          == Moved(m, cfg.stride, from, to, 0, size, a)
  {
    if BlockInRange(cfg.stride, from, size) && BlockInRange(cfg.stride, to, size) {
      var s := cfg.stride;
      assert Dir(cfg, from) == Along(s, from) && Dir(cfg, to) == Along(s, to);
      if Dir(cfg, from) < Dir(cfg, to) {
        assert Along(s, to - from) > 0;
        assert Sub(size, 1) == size - 1;
        CopyDownMoves(cfg, m, m, from, to, size, size - 1);
      } else {
        forall a ensures MemAt(CopyUp(cfg, m, from, to, size, 0), a) == Moved(m, s, from, to, 0, size, a) {
          CopyUpMoves(cfg, m, m, from, to, size, 0, a);
        }
      }
    }
  }

  /** `copyMem(fromA, toA, size)`: descending when the destination lies
      further in the stride's direction than the source, ascending otherwise.
      The counter of the descending loop starts at `size - 1` in 32 bits.
      On blocks of non-negative addresses it has the semantics of memmove:
      whichever way the blocks overlap, every destination cell receives the
      word its source cell held before the copy, and no cell outside the
      destination changes. */
  function CopyMem(cfg: Config, m: map<Word, Word>, from: Word, to: Word, size: Word): (r: map<Word, Word>)
    ensures BlockInRange(cfg.stride, from, size) && BlockInRange(cfg.stride, to, size) ==>
              forall a :: MemAt(r, a) == Moved(m, cfg.stride, from, to, 0, size, a)
  {
    CopyLoopsMove(cfg, m, from, to, size);
    if Dir(cfg, from) < Dir(cfg, to) then CopyDown(cfg, m, from, to, Sub(size, 1))
    else CopyUp(cfg, m, from, to, size, 0)
  }

  /** `pushMultiple(fromA, sz)`: reserve `sz` words above SP and copy the
      block at `fromA` into them. On blocks of non-negative addresses the
      reserved words hold the block's old words, in order, and every other
      cell keeps its word. */
  function PushMultiple(cfg: Config, st: MState, from: Word, size: Word): (s: MState)
    ensures var to := Add(Reg(st, SP), Dir(cfg, 1));
            BlockInRange(cfg.stride, from, size) && BlockInRange(cfg.stride, to, size) ==>
              forall a :: MemAt(s.mem, a) == Moved(st.mem, cfg.stride, from, to, 0, size, a)
    ensures Reg(s, SP) == Add(Reg(st, SP), Dir(cfg, size))
    ensures forall r :: r != SP ==> Reg(s, r) == Reg(st, r)
    ensures s.halted == st.halted && s.instr == st.instr && s.opnds == st.opnds
    ensures s.instrPC == st.instrPC && s.out == st.out
  {
    var to := Add(Reg(st, SP), Dir(cfg, 1));
    var s1 := SetReg(st, SP, Add(Reg(st, SP), Dir(cfg, size)));
    s1.(mem := CopyMem(cfg, s1.mem, from, to, size))
  }

  /** `popMultiple(toA, sz)`: release the top `sz` words and copy them to
      `toA`. On blocks of non-negative addresses the block at `toA` holds
      the released words, the lowest first, and every other cell keeps its
      word. */
  function PopMultiple(cfg: Config, st: MState, to: Word, size: Word): (s: MState)
    ensures var from := Add(Add(Reg(st, SP), Dir(cfg, Neg(size))), Dir(cfg, 1));
            BlockInRange(cfg.stride, from, size) && BlockInRange(cfg.stride, to, size) ==>
              forall a :: MemAt(s.mem, a) == Moved(st.mem, cfg.stride, from, to, 0, size, a)
    ensures Reg(s, SP) == Add(Reg(st, SP), Dir(cfg, Neg(size)))
    ensures forall r :: r != SP ==> Reg(s, r) == Reg(st, r)
    ensures s.halted == st.halted && s.instr == st.instr && s.opnds == st.opnds
    ensures s.instrPC == st.instrPC && s.out == st.out
  {
    var s1 := SetReg(st, SP, Add(Reg(st, SP), Dir(cfg, Neg(size))));
    var from := Add(Reg(s1, SP), Dir(cfg, 1));
    s1.(mem := CopyMem(cfg, s1.mem, from, to, size))
  }

  // ---------------------------------------------------------------------
  // Fetch

  /** The `n` words after `pc`, read with Java's wrap-around. */
  function Operands(m: map<Word, Word>, pc: Word, n: nat): (ops: seq<Word>)
    ensures |ops| == n
    ensures forall i :: 0 <= i < n ==> ops[i] == MemAt(m, Wrap(pc + 1 + i))
  {
    if n == 0 then [] else Operands(m, pc, n - 1) + [MemAt(m, Wrap(pc + n))]
  }

  /** What `fetchNextInstr` leaves behind and the code it returns. */
  datatype Fetched = Fetched(st: MState, code: Instr)

  function IllegalCodeMsg(code: Word): Msg {
    Line("illegal instruction code " + Utils.AsHex(code))
  }

  /** Fetching a legal opcode: it becomes the current instruction, its
      inline operands are read after it, and PC moves past them. */
  function FetchLegal(cfg: Config, st: MState, instr: Instr): (f: Fetched)
    ensures var pc := Reg(st, PC);
            f.code == instr == f.st.instr && f.st.instrPC == pc
            && f.st.opnds == Operands(st.mem, pc, Arity(instr))
            && Reg(f.st, PC) == Wrap(pc + 1 + Arity(instr))
    ensures forall r :: r != PC ==> Reg(f.st, r) == Reg(st, r)
    ensures f.st.mem == st.mem && f.st.halted == st.halted && f.st.out == st.out
    ensures Valid(f.st)
  {
    var pc := Reg(st, PC);
    var n := Arity(instr);
    var s1 := st.(instr := instr, instrPC := pc, opnds := Operands(st.mem, pc, n));
    Fetched(SetReg(s1, PC, Wrap(pc + 1 + n)), instr)
  }

  /** Fetching an illegal opcode: it is reported, PC moves past it and HALT
      is returned; as written the current instruction stays what it was. */
  function FetchIllegal(cfg: Config, st: MState, code: Word, fixed: bool): (f: Fetched)
    ensures var pc := Reg(st, PC);
            f.code == HaltInstr && Reg(f.st, PC) == Add(pc, 1)
            && f.st.out == st.out + [IllegalCodeMsg(code)]
            && (fixed ==> f.st.instr == HaltInstr && f.st.opnds == [] && f.st.instrPC == pc)
            && (!fixed ==> f.st.instr == st.instr && f.st.opnds == st.opnds && f.st.instrPC == st.instrPC)
    ensures forall r :: r != PC ==> Reg(f.st, r) == Reg(st, r)
    ensures f.st.mem == st.mem && f.st.halted == st.halted
    ensures Valid(st) || fixed ==> Valid(f.st)
  {
    var pc := Reg(st, PC);
    var s1 := Say(st, IllegalCodeMsg(code));
    var s2 := if fixed then s1.(instr := HaltInstr, instrPC := pc, opnds := []) else s1;
    Fetched(SetReg(s2, PC, Add(pc, 1)), HaltInstr)
  }

  /** `fetchNextInstr()`: decode the word at PC. */
  function Fetch(cfg: Config, st: MState, fixed: bool): (f: Fetched)
    ensures f.st.mem == st.mem && f.st.halted == st.halted
    ensures Valid(st) || fixed ==> Valid(f.st)
  {
    var code := MemAt(st.mem, Reg(st, PC));
    if code in cfg.decode then FetchLegal(cfg, st, cfg.decode[code])
    else FetchIllegal(cfg, st, code, fixed)
  }

  // ---------------------------------------------------------------------
  // Execute

  /** A step is defined unless it divides by zero: Java's `/` and `%` throw. */
  predicate DivisorOk(st: MState, code: Instr) {
    st.instr.BinopI? && code.BinopI? ==> DefinedOn(code.bop, Top(st))
  }

  /** The BINOP category: pop b, pop a, push the result. With a code that
      is not a BINOP, `execBinop` returns `a` unchanged. */
  function ExecBinopCategory(cfg: Config, st: MState, code: Instr, fixed: bool): (s: MState)
    requires DivisorOk(st, code) && st.instr.BinopI?
    ensures SameInstr(st, s)
  {
    var (s1, b) := Pop(cfg, st);
    var (s2, a) := Pop(cfg, s1);
    var r := if !code.BinopI? then a
             else if fixed then ExecBinopFixed(code.bop, a, b)
             else ExecBinop(code.bop, a, b);
    Push(cfg, s2, r)
  }

  /** The UNOP category: pop, push the result. */
  function ExecUnopCategory(cfg: Config, st: MState, code: Instr): (s: MState)
    ensures SameInstr(st, s)
  {
    var (s1, a) := Pop(cfg, st);
    Push(cfg, s1, if code.UnopI? then ExecUnop(code.uop, a) else a)
  }

  /** The BRCC category: pop the status word and branch when it matches
      the condition of the current instruction. */
  function ExecBrcc(cfg: Config, st: MState): (s: MState)
    requires st.instr.BrccI?
    ensures SameInstr(st, s)
  {
    var (s1, v) := Pop(cfg, st);
    if cfg.srMatches(st.instr.cond, v) then AdjustReg(s1, PC, Opnd(st, 0)) else s1
  }

  /** `halt()`. */
  function Halt(st: MState): (s: MState)
    ensures s.halted && s.out == st.out + [Line(HaltedText)]
  {
    Say(st.(halted := true), Line(HaltedText))
  }

  /** Branches, calls, frames, HALT and NOP. */
  function ExecControl(cfg: Config, st: MState, op: PlainOp): (s: MState)
    requires GroupOf(op) == GControl
    ensures SameInstr(st, s)
  {
    match op
    case IAdjs => AdjustReg(st, SP, Dir(cfg, Opnd(st, 0)))
    case IBra => AdjustReg(st, PC, Opnd(st, 0))
    case IBrf =>
      var (s1, t) := Pop(cfg, st);
      if t == 0 then AdjustReg(s1, PC, Opnd(st, 0)) else s1
    case IBrt =>
      var (s1, t) := Pop(cfg, st);
      if t != 0 then AdjustReg(s1, PC, Opnd(st, 0)) else s1
    case IBsr =>
      var s1 := Push(cfg, st, Reg(st, PC));
      AdjustReg(s1, PC, Opnd(st, 0))
    case IHalt => Halt(st)
    case IJsr =>
      var (s1, t) := Pop(cfg, st);
      var s2 := Push(cfg, s1, Reg(s1, PC));
      SetReg(s2, PC, t)
    case ILink =>
      var s1 := Push(cfg, st, Reg(st, MP));
      var s2 := SetReg(s1, MP, Reg(s1, SP));
      AdjustReg(s2, SP, Dir(cfg, Opnd(st, 0)))
    case INop => st
    case IRet =>
      var (s1, t) := Pop(cfg, st);
      SetReg(s1, PC, t)
    case IUnlink =>
      var s1 := SetReg(st, SP, Reg(st, MP));
      var (s2, t) := Pop(cfg, s1);
      SetReg(s2, MP, t)
  }

  /** Loads, address computations and register copies. LDAA adds its
      offset without the stride. */
  function ExecLoad(cfg: Config, st: MState, op: PlainOp): (s: MState)
    requires GroupOf(op) == GLoad
    ensures SameInstr(st, s)
  {
    match op
    case ILds => Push(cfg, st, MemAt(st.mem, Add(Reg(st, SP), Dir(cfg, Opnd(st, 0)))))
    case ILdms => PushMultiple(cfg, st, Add(Reg(st, SP), Dir(cfg, Opnd(st, 0))), Opnd(st, 1))
    case ILda =>
      var (s1, a) := Pop(cfg, st);
      Push(cfg, s1, MemAt(s1.mem, Add(a, Dir(cfg, Opnd(st, 0)))))
    case ILdma =>
      var (s1, a) := Pop(cfg, st);
      PushMultiple(cfg, s1, Add(a, Dir(cfg, Opnd(st, 0))), Opnd(st, 1))
    case ILdc => Push(cfg, st, Opnd(st, 0))
    case ILdl => Push(cfg, st, MemAt(st.mem, Add(Reg(st, MP), Dir(cfg, Opnd(st, 0)))))
    case ILdml => PushMultiple(cfg, st, Add(Reg(st, MP), Dir(cfg, Opnd(st, 0))), Opnd(st, 1))
    case ILdaa =>
      var (s1, a) := Pop(cfg, st);
      Push(cfg, s1, Add(a, Opnd(st, 0)))
    case ILdsa => Push(cfg, st, Add(Reg(st, SP), Dir(cfg, Opnd(st, 0))))
    case ILdla => Push(cfg, st, Add(Reg(st, MP), Dir(cfg, Opnd(st, 0))))
    case ILdr => Push(cfg, st, Reg(st, Opnd(st, 0)))
    case ILdrr => SetReg(st, Opnd(st, 0), Reg(st, Opnd(st, 1)))
  }

  /** Stores and swaps. STA and STMA add their offsets without the stride. */
  function ExecStore(cfg: Config, st: MState, op: PlainOp): (s: MState)
    requires GroupOf(op) == GStore
    ensures SameInstr(st, s)
  {
    match op
    case ISts =>
      var addr := Add(Reg(st, SP), Dir(cfg, Opnd(st, 0)));
      var (s1, v) := Pop(cfg, st);
      SetMem(s1, addr, v)
    case IStms => PopMultiple(cfg, st, Add(Reg(st, SP), Dir(cfg, Opnd(st, 0))), Opnd(st, 1))
    case ISta =>
      var (s1, a) := Pop(cfg, st);
      var (s2, v) := Pop(cfg, s1);
      SetMem(s2, Add(a, Opnd(st, 0)), v)
    case IStma =>
      var (s1, a) := Pop(cfg, st);
      PopMultiple(cfg, s1, Add(a, Opnd(st, 0)), Opnd(st, 1))
    case IStl =>
      var (s1, v) := Pop(cfg, st);
      SetMem(s1, Add(Reg(s1, MP), Dir(cfg, Opnd(st, 0))), v)
    case IStml => PopMultiple(cfg, st, Add(Reg(st, MP), Dir(cfg, Opnd(st, 0))), Opnd(st, 1))
    case IStr =>
      var (s1, v) := Pop(cfg, st);
      SetReg(s1, Opnd(st, 0), v)
    case ISwp =>
      var below := Add(Reg(st, SP), Dir(cfg, -1));
      var t := MemAt(st.mem, below);
      var s1 := SetMem(st, below, Top(st));
      SetMem(s1, Reg(s1, SP), t)
    case ISwpr =>
      var t := Top(st);
      var r := Opnd(st, 0);
      var s1 := SetMem(st, Reg(st, SP), Reg(st, r));
      SetReg(s1, r, t)
    case ISwprr =>
      var r1, r2 := Opnd(st, 0), Opnd(st, 1);
      var t := Reg(st, r1);
      var s1 := SetReg(st, r1, Reg(st, r2));
      SetReg(s1, r2, t)
  }

  /** The heap instructions. STH and STMH bump HP and push the address of
      the last word stored. LDMH computes its block start without the stride. */
  function ExecHeap(cfg: Config, st: MState, op: PlainOp): (s: MState)
    requires GroupOf(op) == GHeap
    ensures SameInstr(st, s)
  {
    match op
    case ILdh =>
      var (s1, addr) := Pop(cfg, st);
      Push(cfg, s1, MemAt(s1.mem, Add(addr, Opnd(st, 0))))
    case ILdmh =>
      var (s1, addr) := Pop(cfg, st);
      var size := Opnd(st, 1);
      PushMultiple(cfg, s1, Sub(Sub(addr, Opnd(st, 0)), Sub(size, 1)), size)
    case ISth => StoreHeap(cfg, st)
    case IStmh => StoreMultipleHeap(cfg, st)
  }

  /** STH: pop a word, store it at HP, bump HP by one and push the address
      it was stored at. */
  function StoreHeap(cfg: Config, st: MState): (s: MState)
    ensures SameInstr(st, s)
  {
    var (s1, v) := Pop(cfg, st);
    var addr := Reg(s1, HP);
    var s2 := AdjustReg(s1, HP, 1);
    var s3 := SetMem(s2, addr, v);
    Push(cfg, s3, addr)
  }

  /** STMH: move the top `size` words to the heap at HP, bump HP by `size`
      and push the address of the last heap word. */
  function StoreMultipleHeap(cfg: Config, st: MState): (s: MState)
    ensures SameInstr(st, s)
  {
    var size := Opnd(st, 0);
    var begin := Reg(st, HP);
    var end := Sub(Add(begin, size), 1);
    var s1 := AdjustReg(st, HP, size);
    var s2 := PopMultiple(cfg, s1, begin, size);
    Push(cfg, s2, end)
  }

  // ---------------------------------------------------------------------
  // TRAP

  /** The pushes of IN_CHAR_ARRAY after its terminating 0: the characters
      from the last to the first, so that the first ends on top. */
  function PushReversed(cfg: Config, st: MState, cs: seq<Word>): (s: MState)
    ensures SameInstr(st, s) && s.out == st.out
    decreases |cs|
  {
    if cs == [] then st
    else PushReversed(cfg, Push(cfg, st, cs[|cs| - 1]), cs[..|cs| - 1])
  }

  /** Pushing the first `i + 1` words reversed pushes word `i`, then the
      first `i` reversed. */
  lemma PushReversedPrefix(cfg: Config, st: MState, cs: seq<Word>, i: nat)
    requires i < |cs|
    ensures PushReversed(cfg, st, cs[..i + 1]) == PushReversed(cfg, Push(cfg, st, cs[i]), cs[..i])
  {
    assert cs[..i + 1][..i] == cs[..i] && cs[..i + 1][i] == cs[i];
  }

  /** The longest file name the model reads: Java's loop pops until it
      finds a 0, which it finds within 2^32 pops whenever some word of
      memory is 0. */
  const MaxNameLength: nat := TwoTo32

  /** `(char) n`: the low 16 bits of a word. */
  function CharOf(n: Word): nat {
    n % 0x1_0000
  }

  /** The file-name loop of FILE_OPEN after its first pop: while the word
      popped last is not 0, append it as a character and pop the next. */
  function PopNameFrom(cfg: Config, st: MState, n: Word, name: seq<nat>, fuel: nat): (r: (MState, seq<nat>))
    ensures SameInstr(st, r.0) && r.0.out == st.out && r.0.mem == st.mem && r.0.halted == st.halted
    decreases fuel
  {
    if n == 0 || fuel == 0 then (st, name)
    else
      var (s1, m) := Pop(cfg, st);
      PopNameFrom(cfg, s1, m, name + [CharOf(n)], fuel - 1)
  }

  /** The file name of FILE_OPEN: the words popped before the first 0. */
  function PopName(cfg: Config, st: MState): (r: (MState, seq<nat>))
    ensures SameInstr(st, r.0) && r.0.out == st.out && r.0.mem == st.mem && r.0.halted == st.halted
  {
    var (s1, n) := Pop(cfg, st);
    PopNameFrom(cfg, s1, n, [], MaxNameLength)
  }

  /** FILE_OPEN_READ and FILE_OPEN_WRITE: pop the file name, then push the
      handle the file table returns or report that the file was not found. */
  function TrapOpen(cfg: Config, st: MState, env: Env, readOnly: bool): (s: MState)
    ensures var (s1, name) := PopName(cfg, st);
            s.halted == st.halted && SameInstr(st, s)
            && match env.openFile(name, readOnly)
               case Opened(h) =>
                 Reg(s, SP) == Add(Reg(s1, SP), Dir(cfg, 1)) && Top(s) == h && s.out == st.out
                 && (forall q :: q != SP ==> Reg(s, q) == Reg(s1, q))
                 && (forall a :: a != Reg(s, SP) ==> MemAt(s.mem, a) == MemAt(st.mem, a))
               case OpenFailed =>
                 s.regs == s1.regs && s.mem == st.mem && s.out == st.out + [FileNotFound(name)]
  {
    var (s1, name) := PopName(cfg, st);
    match env.openFile(name, readOnly)
    case Opened(h) => Push(cfg, s1, h)
    case OpenFailed => Say(s1, FileNotFound(name))
  }

  function FileErrorMsg(r: FileResult, ioError: string): Msg
    requires !r.FileValue?
  {
    if r.FileIOError? then Line(ioError) else Line(BadHandleText)
  }

  /** TRAP: the console and file operations selected by the inline operand. */
  function ExecTrap(cfg: Config, st: MState, env: Env): (s: MState)
    ensures SameInstr(st, s)
  {
    var t := Opnd(st, 0);
    if t !in cfg.traps then st
    else
      match cfg.traps[t]
      case TrPrInt =>
        var (s1, v) := Pop(cfg, st);
        Say(s1, Line(ToDecimal(v)))
      case TrPrChar =>
        var (s1, v) := Pop(cfg, st);
        Say(s1, CodePoint(v))
      case TrInInt => Push(cfg, st, env.promptInt)
      case TrInChar => Push(cfg, st, env.promptChar)
      case TrInCharArray => PushReversed(cfg, Push(cfg, st, 0), env.promptChars)
      case TrFileOpenRead => TrapOpen(cfg, st, env, true)
      case TrFileOpenWrite => TrapOpen(cfg, st, env, false)
      case TrFileRead => TrapRead(cfg, st, env)
      case TrFileWrite => TrapWrite(cfg, st, env)
      case TrFileClose => TrapClose(cfg, st, env)
  }

  /** FILE_READ: `push(state.readFromFile(pop()))`, or the error. */
  function TrapRead(cfg: Config, st: MState, env: Env): (s: MState)
    ensures SameInstr(st, s)
  {
    var (s1, h) := Pop(cfg, st);
    var r := env.readFile(h);
    if r.FileValue? then Push(cfg, s1, r.value)
    else Say(s1, FileErrorMsg(r, ReadErrorText))
  }

  /** FILE_WRITE: `push(state.writeToFile(pop(), pop()))`, or the error. */
  function TrapWrite(cfg: Config, st: MState, env: Env): (s: MState)
    ensures SameInstr(st, s)
  {
    var (s1, h) := Pop(cfg, st);
    var (s2, v) := Pop(cfg, s1);
    var r := env.writeFile(h, v);
    if r.FileValue? then Push(cfg, s2, r.value)
    else Say(s2, FileErrorMsg(r, WriteErrorText))
  }

  /** FILE_CLOSE: `state.closeFile(pop())`, and the error if it fails. */
  function TrapClose(cfg: Config, st: MState, env: Env): (s: MState)
    ensures SameInstr(st, s)
  {
    var (s1, h) := Pop(cfg, st);
    match env.closeFile(h)
    case Closed => s1
    case CloseIOError => Say(s1, Line(CloseErrorText))
    case CloseInvalidHandle => Say(s1, Line(BadHandleText))
  }

  /** The message of the `default` branches. */
  function NotImplementedMsg(st: MState): Msg {
    NotImplemented(st.instr, Utils.AsHex(st.instrPC))
  }

  /** The OP category: `switch (code)`. */
  function ExecOp(cfg: Config, st: MState, code: Instr, env: Env): (s: MState)
    ensures SameInstr(st, s)
  {
    if !code.OpI? then Say(st, NotImplementedMsg(st))
    else
      var op := code.op;
      match GroupOf(op)
      case GControl => ExecControl(cfg, st, op)
      case GLoad => ExecLoad(cfg, st, op)
      case GStore => ExecStore(cfg, st, op)
      case GHeap => ExecHeap(cfg, st, op)
      case GTrap => ExecTrap(cfg, st, env)
      case GOther => Say(st, NotImplementedMsg(st))
  }

  /** The dispatch of `executeOne` after the fetch: on the category of the
      current instruction, with the fetched code. */
  function Execute(cfg: Config, st: MState, code: Instr, env: Env, fixed: bool): (s: MState)
    requires DivisorOk(st, code)
    ensures SameInstr(st, s)
  {
    match st.instr
    case BinopI(_) => ExecBinopCategory(cfg, st, code, fixed)
    case UnopI(_) => ExecUnopCategory(cfg, st, code)
    case OpI(_) => ExecOp(cfg, st, code, env)
    case BrccI(_) => ExecBrcc(cfg, st)
  }

  /** The step is defined: it does not divide by zero. */
  predicate StepDefined(cfg: Config, st: MState, fixed: bool) {
    var f := Fetch(cfg, st, fixed);
    st.halted || DivisorOk(f.st, f.code)
  }

  /** `executeOne()`: nothing on a halted machine, otherwise fetch and execute. */
  function StepWith(cfg: Config, st: MState, env: Env, fixed: bool): (s: MState)
    requires StepDefined(cfg, st, fixed)
    ensures st.halted ==> s == st
  {
    if st.halted then st
    else
      var f := Fetch(cfg, st, fixed);
      Execute(cfg, f.st, f.code, env, fixed)
  }

  /** The engine as written. */
  function Step(cfg: Config, st: MState, env: Env): (s: MState)
    requires StepDefined(cfg, st, false)
    ensures st.halted ==> s == st
  {
    StepWith(cfg, st, env, false)
  }

  /** The engine with the corrections. */
  function StepFixed(cfg: Config, st: MState, env: Env): (s: MState)
    requires StepDefined(cfg, st, true)
    ensures st.halted ==> s == st
  {
    StepWith(cfg, st, env, true)
  }
}
