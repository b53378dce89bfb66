/** The instruction set of the machine as the engine sees it: the four
    categories, every operation the engine dispatches on, the number of
    inline operands each one takes, and the machine configuration (stack
    direction, opcode table, trap numbers, condition-code test).

    The numeric opcodes, trap numbers and the condition-code test belong to
    the instruction table, which is not part of this model; they are
    parameters of the configuration.
 */
module Instructions {
  import opened JavaInt

  /** `Instruction.CONST_TRUE` and `Instruction.CONST_FALSE`. */
  const ConstTrue: Word := -1
  const ConstFalse: Word := 0

  /** Register ids of the distinguished registers. */
  const PC: Word := 0
  const SP: Word := 1
  const MP: Word := 2
  const HP: Word := 3

  /** The number of bits in a word, `Instruction.nWordBits`. */
  const WordBits: Word := 32

  /** The operations `execBinop` switches on. */
  datatype BinOp =
    | BiAdd | BiSub | BiMul | BiDiv | BiMod
    | BiAnd | BiOr | BiXor
    | BiLsl | BiLsr | BiRol | BiRor
    | BiEq | BiNe | BiLt | BiGt | BiLe | BiGe

  /** The operations `execUnop` switches on. */
  datatype UnOp = UiNeg | UiNot

  /** The instructions of category OP. `IUnimplemented` stands for any
      other instruction of that category, which the engine reports as not
      implemented. */
  datatype PlainOp =
    | IAdjs | IBra | IBrf | IBrt | IBsr | IHalt | IJsr
    | ILds | ILdms | ILda | ILdma | ILdc | ILdl | ILdml
    | ILdaa | ILdsa | ILdla | ILdr | ILdrr | ILink | INop | IRet
    | ISts | IStms | ISta | IStma | IStl | IStml | IStr
    | ISwp | ISwpr | ISwprr | IUnlink | ITrap
    | ILdh | ILdmh | ISth | IStmh
    | IUnimplemented(name: string, arity: nat)

  /** How the engine groups the instructions of category OP. */
  datatype OpGroup = GControl | GLoad | GStore | GHeap | GTrap | GOther

  function GroupOf(op: PlainOp): OpGroup {
    match op
    case IAdjs | IBra | IBrf | IBrt | IBsr | IHalt | IJsr | ILink | INop | IRet | IUnlink => GControl
    case ILds | ILdms | ILda | ILdma | ILdc | ILdl | ILdml | ILdaa | ILdsa | ILdla | ILdr | ILdrr => GLoad
    case ISts | IStms | ISta | IStma | IStl | IStml | IStr | ISwp | ISwpr | ISwprr => GStore
    case ILdh | ILdmh | ISth | IStmh => GHeap
    case ITrap => GTrap
    case IUnimplemented(_, _) => GOther
  }

  /** The sub-operations of TRAP, selected by its inline operand. */
  datatype TrapOp =
    | TrPrInt | TrPrChar | TrInInt | TrInChar | TrInCharArray
    | TrFileOpenRead | TrFileOpenWrite | TrFileRead | TrFileWrite | TrFileClose

  /** A decoded instruction; a BRCC instruction carries its condition. */
  datatype Instr =
    | BinopI(bop: BinOp)
    | UnopI(uop: UnOp)
    | OpI(op: PlainOp)
    | BrccI(cond: Word)

  datatype Category = CtgBinop | CtgUnop | CtgOp | CtgBrcc

  function CategoryOf(i: Instr): Category {
    match i
    case BinopI(_) => CtgBinop
    case UnopI(_) => CtgUnop
    case OpI(_) => CtgOp
    case BrccI(_) => CtgBrcc
  }

  /** The HALT instruction, which the engine substitutes for an illegal opcode. */
  const HaltInstr: Instr := OpI(IHalt)

  /** The number of inline operands of each instruction.  Instruction.java,
      which holds the instruction table, is not part of this model: these
      counts are those of the inline operands the engine in Machine.java
      reads for each instruction. */
  function Arity(i: Instr): (n: nat)
    ensures n <= 2 || (i.OpI? && i.op.IUnimplemented?)
    ensures i.BinopI? || i.UnopI? ==> n == 0
    ensures i.BrccI? ==> n == 1
  {
    match i
    case BinopI(_) => 0
    case UnopI(_) => 0
    case BrccI(_) => 1
    case OpI(op) =>
      match op
      case IHalt | IJsr | INop | IRet | ISwp | IUnlink | ISth => 0
      case ILdms | ILdma | ILdml | ILdrr | IStms | IStma | IStml | ISwprr | ILdmh => 2
      case IUnimplemented(_, n) => n
      case _ => 1
  }

  /** The addressing stride `dir(1)`: +1 or -1. */
  type Stride = s: int | s == 1 || s == -1 witness 1

  /** The machine configuration: the stride, the opcode table
      (`Instruction.findByCode`), the trap numbers and the condition-code
      test of BRCC instructions (`srMatchesCCInfo`). */
  datatype Config = Config(
    stride: Stride,
    decode: map<Word, Instr>,
    traps: map<Word, TrapOp>,
    srMatches: (Word, Word) -> bool)
}
