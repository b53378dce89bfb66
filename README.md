# Simple Stack Machine: a verified model of its engine and helpers

This project models, in Dafny, the core of the Simple Stack Machine, a
teaching virtual machine. The model covers four parts of it:

- **The engine (`Machine`).** A word-oriented stack machine with
  registers PC, SP, MP and HP, a memory of 32-bit words, a stack that
  grows by a configured stride (`dir(1)`, +1 or -1), and a
  fetch–decode–execute step `executeOne`. The model covers
  fetching (legal and illegal opcodes, inline operands), the four
  instruction categories (BINOP, UNOP, OP, BRCC), every OP instruction
  including the TRAP console and file operations, the stack primitives,
  and `copyMem`.
- **The string and number helpers (`Utils`).** Hexadecimal and number
  formatting and parsing with Java `int` wrap-around, splitting,
  repetition, list printing, searching an `int` array, and file
  extensions.
- **The help index (`Help`).** Topics gathered from the help suppliers
  and kept sorted case-insensitively by `addSorted`.
- **The golden-output test runner (`CliTestRunner`).** It consumes the
  expected output as the program prints, and stops at the first
  mismatch.

The model is organised as follows:

- `java_int.dfy` (`JavaInt`): Java `int` arithmetic on unbounded
  integers. Wrap-around, truncating division and shifts are written out.
- `instructions.dfy` (`Instructions`): the instruction set as the engine
  sees it. The numeric opcode table, the trap numbers and the
  condition-code test of BRCC instructions belong to the instruction
  table. That table is not part of this model, so they are fields of a
  `Config`.
- `alu.dfy` (`Alu`): `execBinop` and `execUnop`, their laws, and the
  corrected LSR, ROL and ROR.
- `machine_spec.dfy` (`MachineSpec`): the engine as functions on a
  machine state `MState`. What the prompts and the file table answer
  during a step is a parameter `Env`.
- `machine.dfy` (`SimpleStackMachine.Machine`): the engine as a class
  whose fields are the machine state. Every method is proved to leave
  exactly the state the corresponding `MachineSpec` function computes.
- `machine_laws.dfy` (`MachineLaws`): properties of steps and of pairs of
  steps, cells moved by `copyMem`, and illegal opcodes.
- `machine_effects.dfy` (`MachineEffects`): one law per instruction and
  per trap. Each law states the words the instruction pops and pushes,
  the registers and cells it writes and the messages it prints, and that
  nothing else changes.
- `utils.dfy` (`Utils`), `help.dfy` (`Help`), `cli_test_runner.dfy`
  (`CliTestRunner`).

Where the system's design description and the code disagree, the model
follows the code:

- The description calls LSR a logical shift and ROL/ROR rotations, but
  the code uses the arithmetic `>>`.
- The description says an illegal opcode forces a HALT, but the code
  leaves the previous instruction current.

Both are modelled as written and listed under "## Findings", next to a
corrected version. The code's other literal behaviours are kept too:

- LDAA, STA and STMA add their offsets without `dir`, and LDMH computes
  its block start without `dir`.
- A BINOP or UNOP step run with a code of another category returns its
  left operand unchanged.

## Model

| member | source | states |
|---|---|---|
| JavaInt.Wrap | src/nl/uu/cs/ssm/Machine.java:172-187 | 32-bit wrap-around: the result is congruent to the input modulo 2^32, and equal to it when the input fits in an `int` |
| JavaInt.Not | src/nl/uu/cs/ssm/Machine.java:283-285 | `~a` is the word whose sum with `a` is -1 |
| JavaInt.Div | src/nl/uu/cs/ssm/Machine.java:188-190 | `/` truncates toward zero: the magnitude is the quotient of the magnitudes, the sign is negative iff the operand signs differ, and `Integer.MIN_VALUE / -1` wraps to `Integer.MIN_VALUE` |
| JavaInt.Rem | src/nl/uu/cs/ssm/Machine.java:192-194 | `%` is smaller than the divisor in magnitude and takes the dividend's sign |
| JavaInt.DivRemIdentity | src/nl/uu/cs/ssm/Machine.java:188-194 | `(a / b) * b + a % b == a` for every divisor but the overflowing `Integer.MIN_VALUE / -1` |
| JavaInt.Shl | src/nl/uu/cs/ssm/Machine.java:208-210 | `<<` by `n`: when the product does not overflow, `>>` by `n` gives the operand back |
| JavaInt.Shr | src/nl/uu/cs/ssm/Machine.java:212-214 | `>>` keeps the sign of its operand |
| JavaInt.Ushr | src/nl/uu/cs/ssm/Machine.java:212-214 | `>>>` divides the unsigned 32-bit reading by 2 to the shift amount |
| JavaInt.ToDecimal | src/nl/uu/cs/ssm/Machine.java:482-483 | `"" + i` starts with "-" iff `i < 0` and is otherwise decimal digits |
| Instructions.Arity | src/nl/uu/cs/ssm/Machine.java:162-166 | BINOP and UNOP take no inline operand, BRCC takes one, and every implemented OP instruction takes at most two |
| Alu.Compare | src/nl/uu/cs/ssm/Machine.java:224-246 | each comparison yields only CONST_TRUE or CONST_FALSE, and CONST_TRUE exactly when its relation holds |
| Alu.ExecBinop | src/nl/uu/cs/ssm/Machine.java:172-273 | `execBinop`: comparisons yield only the two truth constants, each iff its relation holds; as written LSR keeps the sign; MOD's result is smaller than the divisor in magnitude and has the dividend's sign |
| Alu.ExecUnop | src/nl/uu/cs/ssm/Machine.java:275-289 | NEG gives the additive inverse modulo 2^32 (`-a + a == 0`), NOT gives `-a - 1` |
| Alu.SubUndoesAdd | src/nl/uu/cs/ssm/Machine.java:176-182 | SUB undoes ADD for every pair of words, overflow included |
| Alu.NegInvolutive | src/nl/uu/cs/ssm/Machine.java:279-281 | NEG twice is the identity, `Integer.MIN_VALUE` included |
| Alu.NotIsNegMinusOne | src/nl/uu/cs/ssm/Machine.java:279-285 | NOT equals NEG minus one in 32-bit arithmetic |
| Alu.DivModIdentity | src/nl/uu/cs/ssm/Machine.java:188-194 | DIV and MOD truncate toward zero and recombine: `(a / b) * b + a % b == a` with wrap-around |
| Alu.ComparisonsMirror | src/nl/uu/cs/ssm/Machine.java:224-246 | LT/GT and LE/GE mirror each other under swapped operands, EQ is symmetric, NE is the complement of EQ |
| Alu.LsrKeepsSign | src/nl/uu/cs/ssm/Machine.java:212-214 | as written, LSR of -8 by 1 is -4; the logical shift gives 0x7FFFFFFC |
| Alu.RolSmearsSign | src/nl/uu/cs/ssm/Machine.java:216-218 | as written, ROL of `Integer.MIN_VALUE` by 1 is -1; a rotation gives 1 |
| Alu.LsrLogical | src/nl/uu/cs/ssm/Machine.java:212-214 | the corrected LSR: its unsigned value is the operand's unsigned value divided by 2 to the shift amount; non-negative for a shift of at least one bit, and equal to `>>` on non-negative operands |
| Alu.RolRotating | src/nl/uu/cs/ssm/Machine.java:216-218 | the corrected ROL: ROR by the same amount gives the operand back |
| Alu.RotateInverse | src/nl/uu/cs/ssm/Machine.java:216-222 | on the unsigned 32-bit reading, rotating right undoes rotating left |
| Alu.ExecBinopFixed | src/nl/uu/cs/ssm/Machine.java:172-273 | `execBinop` with the corrections: it agrees with the code everywhere except LSR, ROL and ROR; its ROL is undone by ROR; its LSR is non-negative |
| MachineSpec.SetReg | src/nl/uu/cs/ssm/Machine.java:355 | setting a register changes that register only |
| MachineSpec.Push | src/nl/uu/cs/ssm/Machine.java:95-100 | `push(v)`: SP moves one stride, `v` is on top, and no other register or memory cell changes |
| MachineSpec.Pop | src/nl/uu/cs/ssm/Machine.java:127-133 | `pop()`: returns the top word and moves SP one stride back; memory and other registers are unchanged |
| MachineSpec.PushMultiple | src/nl/uu/cs/ssm/Machine.java:78-83 | `pushMultiple`: SP moves by `dir(sz)`, no other register changes, and when both blocks lie in the non-negative addresses every cell is as a memmove of the `sz` words at `fromA` to the slots just above the old SP leaves it |
| MachineSpec.PopMultiple | src/nl/uu/cs/ssm/Machine.java:135-140 | `popMultiple`: SP moves by `dir(-sz)`, no other register changes, and when both blocks lie in the non-negative addresses every cell is as a memmove of the top `sz` words to `toA` leaves it |
| MachineSpec.Operands | src/nl/uu/cs/ssm/Machine.java:162-166 | the inline operands are the `n` words after the opcode, with wrap-around |
| MachineSpec.FetchLegal | src/nl/uu/cs/ssm/Machine.java:147-170 | a legal opcode becomes the current instruction at PC, its operands are read after it, PC moves past them, and the state stays consistent |
| MachineSpec.FetchIllegal | src/nl/uu/cs/ssm/Machine.java:147-170 | an illegal opcode is reported in hexadecimal, PC moves by one and HALT is returned; as written the current instruction stays what it was, corrected it becomes HALT |
| MachineSpec.Fetch | src/nl/uu/cs/ssm/Machine.java:147-170 | fetching changes neither memory nor the halted flag, and keeps the instruction consistent with its operands |
| MachineSpec.Halt | src/nl/uu/cs/ssm/Machine.java:291-295 | `halt()`: the machine is halted and "machine halted" is printed |
| MachineSpec.TrapOpen | src/nl/uu/cs/ssm/Machine.java:509-528 | FILE_OPEN: after the name is popped, an opened file's handle is pushed and nothing else changes; a failed open reports "file not found" with the name |
| MachineSpec.StepWith | src/nl/uu/cs/ssm/Machine.java:297-301 | `executeOne` on a halted machine changes nothing |
| MachineSpec.Step | src/nl/uu/cs/ssm/Machine.java:297-642 | the engine as written: a halted machine is left exactly as it was |
| MachineSpec.StepFixed | src/nl/uu/cs/ssm/Machine.java:297-642 | the engine with the corrections of "## Findings": a halted machine is left exactly as it was |
| SimpleStackMachine.Machine.Push | src/nl/uu/cs/ssm/Machine.java:95-100 | updates the fields exactly as `MachineSpec.Push` |
| SimpleStackMachine.Machine.Pop | src/nl/uu/cs/ssm/Machine.java:127-133 | updates the fields and returns the word exactly as `MachineSpec.Pop` |
| SimpleStackMachine.Machine.CopyMem | src/nl/uu/cs/ssm/Machine.java:62-76 | the two loops, proved by invariants, leave memory as `MachineSpec.CopyMem` and every other field unchanged |
| SimpleStackMachine.Machine.PushMultiple | src/nl/uu/cs/ssm/Machine.java:78-83 | the fields end as `MachineSpec.PushMultiple` computes: SP moved by `dir(sz)`, the block copied above the old top, nothing else changed |
| SimpleStackMachine.Machine.PopMultiple | src/nl/uu/cs/ssm/Machine.java:135-140 | the fields end as `MachineSpec.PopMultiple` computes: SP moved by `dir(-sz)`, the top block copied to `toA`, nothing else changed |
| SimpleStackMachine.Machine.ReadOperands | src/nl/uu/cs/ssm/Machine.java:162-166 | the operand loop reads exactly `Operands` and ends with PC past the operands |
| SimpleStackMachine.Machine.FetchNextInstr | src/nl/uu/cs/ssm/Machine.java:147-170 | `fetchNextInstr` leaves the state and returns the code `MachineSpec.Fetch` computes |
| SimpleStackMachine.Machine.Halt | src/nl/uu/cs/ssm/Machine.java:291-295 | updates the fields exactly as `MachineSpec.Halt` |
| SimpleStackMachine.Machine.ExecBinopCategory | src/nl/uu/cs/ssm/Machine.java:308-313 | the fields end as `MachineSpec.ExecBinopCategory` computes, whose effect `MachineLaws.ExecBinopLaw` states: both operands replaced by `execBinop(a, b)`, nothing else changed |
| SimpleStackMachine.Machine.ExecUnopCategory | src/nl/uu/cs/ssm/Machine.java:315-318 | the fields end as `MachineSpec.ExecUnopCategory` computes, whose effect `MachineEffects.UnopLaw` states: the top replaced by `execUnop` of it, nothing else changed |
| SimpleStackMachine.Machine.ExecBrcc | src/nl/uu/cs/ssm/Machine.java:630-633 | the fields end as `MachineSpec.ExecBrcc` computes, whose effect `MachineEffects.BrccLaw` states: the status word popped, PC moved by the operand iff it matches the condition |
| SimpleStackMachine.Machine.ExecControl | src/nl/uu/cs/ssm/Machine.java:323-420 | the fields end as `MachineSpec.ExecControl` computes, whose effect for each of ADJS, BRA, BRF, BRT, BSR, HALT, JSR, LINK, NOP, RET and UNLINK its law in `MachineEffects` or `MachineLaws` states |
| SimpleStackMachine.Machine.ExecLoad | src/nl/uu/cs/ssm/Machine.java:358-404 | the fields end as `MachineSpec.ExecLoad` computes, whose effect for each load its law in `MachineEffects` (`LdsLaw` to `LdmlLaw`) states |
| SimpleStackMachine.Machine.ExecStore | src/nl/uu/cs/ssm/Machine.java:421-472 | the fields end as `MachineSpec.ExecStore` computes, whose effect for each store and swap its law in `MachineEffects` (`StsLaw` to `StmlLaw`) states |
| SimpleStackMachine.Machine.ExecHeap | src/nl/uu/cs/ssm/Machine.java:587-622 | the fields end as `MachineSpec.ExecHeap` computes, whose effects `MachineEffects.LdhLaw`, `MachineEffects.LdmhLaw`, `MachineLaws.SthLaw` and `MachineLaws.StmhLaw` state |
| SimpleStackMachine.Machine.StoreHeap | src/nl/uu/cs/ssm/Machine.java:600-607 | the fields end as `MachineSpec.StoreHeap` computes: HP up by one, the popped word at the old HP, the old HP pushed (`MachineLaws.SthLaw`) |
| SimpleStackMachine.Machine.StoreMultipleHeap | src/nl/uu/cs/ssm/Machine.java:609-622 | the fields end as `MachineSpec.StoreMultipleHeap` computes: the top `size` words moved to the heap from HP, HP up by `size`, HP + size - 1 pushed (`MachineLaws.StmhLaw`) |
| SimpleStackMachine.Machine.PushCharArray | src/nl/uu/cs/ssm/Machine.java:501-508 | the descending loop, proved by its invariant, leaves the fields as `MachineSpec.PushReversed` computes: the first character on top, the rest below it in order (`MachineEffects.PushReversedOrder`) |
| SimpleStackMachine.Machine.PopFileName | src/nl/uu/cs/ssm/Machine.java:511-517 | the loop, proved by its invariant, pops the words down to the first 0 and returns the name `MachineSpec.PopName` computes, whose content `MachineEffects.PopNameLaw` states |
| SimpleStackMachine.Machine.TrapOpen | src/nl/uu/cs/ssm/Machine.java:509-528 | the fields end as `MachineSpec.TrapOpen` computes: the name popped, then the handle pushed or "file not found" reported |
| SimpleStackMachine.Machine.ExecTrap | src/nl/uu/cs/ssm/Machine.java:479-585 | the fields end as `MachineSpec.ExecTrap` computes, whose effect for each trap its law in `MachineEffects` (`PrIntLaw` to `FileCloseLaw`, `TrapUnknownLaw`) states |
| SimpleStackMachine.Machine.ExecOp | src/nl/uu/cs/ssm/Machine.java:320-628 | the fields end as `MachineSpec.ExecOp` computes: the group of the fetched code decides, and an unknown one only reports (`MachineEffects.UnimplementedLaw`) |
| SimpleStackMachine.Machine.ExecuteOne | src/nl/uu/cs/ssm/Machine.java:297-642 | one `executeOne` leaves exactly the state `MachineSpec.StepWith` computes; a halted machine is left alone |
| MachineLaws.StrideBack | src/nl/uu/cs/ssm/Machine.java:95-133 | one stride up and one down, or down and up, is where SP started, with wrap-around |
| MachineEffects.UnopLaw | src/nl/uu/cs/ssm/Machine.java:315-318 | UNOP replaces the word on top by `execUnop` of it; no register, other cell, output or flag changes |
| MachineEffects.BrccLaw | src/nl/uu/cs/ssm/Machine.java:630-633 | BRCC pops the status word and adds its operand to PC exactly when the word matches the condition; nothing else changes |
| MachineEffects.AdjsLaw | src/nl/uu/cs/ssm/Machine.java:323-326 | ADJS moves SP by its operand times the stride and changes nothing else |
| MachineEffects.BraLaw | src/nl/uu/cs/ssm/Machine.java:327-330 | BRA adds its operand to PC and changes nothing else |
| MachineEffects.BrfLaw | src/nl/uu/cs/ssm/Machine.java:331-336 | BRF pops the top and branches by its operand exactly when the popped word is 0 |
| MachineEffects.BrtLaw | src/nl/uu/cs/ssm/Machine.java:337-342 | BRT pops the top and branches by its operand exactly when the popped word is not 0 |
| MachineEffects.JsrLaw | src/nl/uu/cs/ssm/Machine.java:352-357 | JSR pops the target, pushes the return address in its place and sets PC to the target |
| MachineEffects.NopLaw | src/nl/uu/cs/ssm/Machine.java:414-416 | NOP leaves the state exactly as it was |
| MachineEffects.HaltLaw | src/nl/uu/cs/ssm/Machine.java:348-351 | HALT sets the halted flag and prints "machine halted", changing no register and no cell |
| MachineEffects.LdsLaw | src/nl/uu/cs/ssm/Machine.java:358-361 | LDS pushes the word its operand strides away from SP; only SP and the new top change |
| MachineEffects.LdaLaw | src/nl/uu/cs/ssm/Machine.java:366-369 | LDA replaces the address on top by the word its operand strides away from it |
| MachineEffects.LdcLaw | src/nl/uu/cs/ssm/Machine.java:374-377 | LDC pushes its operand |
| MachineEffects.LdlLaw | src/nl/uu/cs/ssm/Machine.java:378-381 | LDL pushes the local its operand strides away from MP |
| MachineEffects.LdaaLaw | src/nl/uu/cs/ssm/Machine.java:386-389 | LDAA adds its operand, without the stride, to the address on top |
| MachineEffects.LdsaLaw | src/nl/uu/cs/ssm/Machine.java:390-393 | LDSA pushes the address its operand strides away from SP |
| MachineEffects.LdlaLaw | src/nl/uu/cs/ssm/Machine.java:394-397 | LDLA pushes the address its operand strides away from MP |
| MachineEffects.LdrLaw | src/nl/uu/cs/ssm/Machine.java:398-401 | LDR pushes the register its operand names |
| MachineEffects.LdrrLaw | src/nl/uu/cs/ssm/Machine.java:402-405 | LDRR copies the register named by the second operand into the one named by the first, and changes nothing else |
| MachineEffects.LdmsLaw | src/nl/uu/cs/ssm/Machine.java:362-365 | LDMS moves SP up by `size` and copies the `size` words that start its operand strides from SP above the old top |
| MachineEffects.LdmaLaw | src/nl/uu/cs/ssm/Machine.java:370-373 | LDMA pops the address and pushes the `size` words that start its operand strides from it |
| MachineEffects.LdmlLaw | src/nl/uu/cs/ssm/Machine.java:382-385 | LDML pushes the `size` locals that start its operand strides from MP |
| MachineEffects.StsLaw | src/nl/uu/cs/ssm/Machine.java:421-425 | STS pops the top into the cell its operand strides from the old SP; only SP and that cell change |
| MachineEffects.StaLaw | src/nl/uu/cs/ssm/Machine.java:430-435 | STA pops an address and stores the word below it at that address plus the operand, without the stride |
| MachineEffects.StlLaw | src/nl/uu/cs/ssm/Machine.java:441-444 | STL pops the top into the local its operand strides from MP |
| MachineEffects.StrLaw | src/nl/uu/cs/ssm/Machine.java:449-452 | STR pops the top into the register its operand names |
| MachineEffects.SwpLaw | src/nl/uu/cs/ssm/Machine.java:453-458 | SWP exchanges the two words on top and changes nothing else |
| MachineEffects.SwprLaw | src/nl/uu/cs/ssm/Machine.java:459-465 | SWPR exchanges the word on top with the register its operand names |
| MachineEffects.SwprrLaw | src/nl/uu/cs/ssm/Machine.java:466-473 | SWPRR exchanges the two registers its operands name, memory untouched |
| MachineEffects.StmsLaw | src/nl/uu/cs/ssm/Machine.java:426-429 | STMS moves SP down by `size` and copies the popped words to the block its operand strides from the old SP |
| MachineEffects.StmaLaw | src/nl/uu/cs/ssm/Machine.java:436-440 | STMA pops an address and copies the `size` words below it to that address plus the operand |
| MachineEffects.StmlLaw | src/nl/uu/cs/ssm/Machine.java:445-448 | STML copies the top `size` words to the locals its operand strides from MP and moves SP down by `size` |
| MachineEffects.SwpTwice | src/nl/uu/cs/ssm/Machine.java:453-458 | SWP twice restores every register and every cell |
| MachineEffects.StlThenLdl | src/nl/uu/cs/ssm/Machine.java:378-444 | STL k then LDL k pushes back the stored word, with SP and MP where they started |
| MachineEffects.LdhLaw | src/nl/uu/cs/ssm/Machine.java:587-592 | LDH replaces the address on top by the word at that address plus the operand |
| MachineEffects.LdmhLaw | src/nl/uu/cs/ssm/Machine.java:593-598 | LDMH pops the address and pushes the `size` words of the block that ends at the address minus the offset |
| MachineEffects.UnimplementedLaw | src/nl/uu/cs/ssm/Machine.java:624-626 | an instruction the engine has no case for only reports "not (yet) implemented" with its address in hexadecimal |
| MachineEffects.TrapUnknownLaw | src/nl/uu/cs/ssm/Machine.java:583 | a TRAP with an unknown number leaves the state exactly as it was |
| MachineEffects.PrIntLaw | src/nl/uu/cs/ssm/Machine.java:482-484 | PR_INT pops the top and prints it in decimal on a line of its own |
| MachineEffects.PrCharLaw | src/nl/uu/cs/ssm/Machine.java:485-494 | PR_CHAR pops the top and prints it as a code point |
| MachineEffects.InIntLaw | src/nl/uu/cs/ssm/Machine.java:495-497 | IN_INT pushes the integer the prompt answers |
| MachineEffects.InCharLaw | src/nl/uu/cs/ssm/Machine.java:498-500 | IN_CHAR pushes the character the prompt answers |
| MachineEffects.PushReversedOrder | src/nl/uu/cs/ssm/Machine.java:504-507 | pushing the characters from last to first leaves the first on top, each `j` strides above the old top holding the character `|cs| - j`, every other cell as it was |
| MachineEffects.InCharArrayLaw | src/nl/uu/cs/ssm/Machine.java:501-508 | IN_CHAR_ARRAY pushes 0 and then the answered characters: the first on top, the rest below in order, then the 0 |
| MachineEffects.PopNameFromLaw | src/nl/uu/cs/ssm/Machine.java:513-517 | each turn of the name loop keeps: every popped word so far was non-zero and gave its character to the name, in popping order |
| MachineEffects.PopNameLaw | src/nl/uu/cs/ssm/Machine.java:511-517 | the name is the characters of the words popped before the first 0 (at most the length bound), and SP ends below that 0 |
| MachineEffects.FileOpenLaw | src/nl/uu/cs/ssm/Machine.java:509-528 | FILE_OPEN pops the name, then pushes the handle the file table gives, or reports that the file was not found |
| MachineEffects.FileReadLaw | src/nl/uu/cs/ssm/Machine.java:529-546 | FILE_READ replaces the handle by the word read, or pops it and reports a read error or an invalid handle |
| MachineEffects.FileWriteLaw | src/nl/uu/cs/ssm/Machine.java:547-564 | FILE_WRITE pops the handle and the word and pushes the status, or reports a write error or an invalid handle |
| MachineEffects.FileCloseLaw | src/nl/uu/cs/ssm/Machine.java:565-582 | FILE_CLOSE pops the handle and reports a failed close, by its kind |
| MachineLaws.PopAfterPush | src/nl/uu/cs/ssm/Machine.java:95-133 | `pop` after `push(v)` returns `v` and restores every register |
| MachineLaws.PushAfterPop | src/nl/uu/cs/ssm/Machine.java:95-133 | pushing back the popped word restores every register and every memory cell |
| MachineSpec.CopyUpMoves | src/nl/uu/cs/ssm/Machine.java:69-73 | the ascending loop, when the destination does not lie further along the stride, leaves each cell as the block move prescribes |
| MachineSpec.CopyDownMoves | src/nl/uu/cs/ssm/Machine.java:64-68 | the descending loop, when the destination lies further along the stride, leaves each cell as the block move prescribes |
| MachineSpec.CopyMem | src/nl/uu/cs/ssm/Machine.java:62-76 | `copyMem` is a memmove: when both blocks lie in the non-negative addresses, whichever way they overlap, every destination cell gets its source cell's old word and every other cell keeps its word |
| MachineLaws.CopyMemCell | src/nl/uu/cs/ssm/Machine.java:62-76 | destination cell `i` holds source cell `i` from before the copy |
| MachineLaws.CopyMemOutside | src/nl/uu/cs/ssm/Machine.java:62-76 | a cell outside the destination block keeps its word |
| MachineLaws.StepKeepsValid | src/nl/uu/cs/ssm/Machine.java:297-642 | a step keeps the current instruction consistent with its number of operands |
| MachineLaws.StepLegal | src/nl/uu/cs/ssm/Machine.java:297-305 | a step on a legal opcode is defined iff it does not divide by zero, and then executes that opcode on the fetched state |
| MachineLaws.ExecBinopLaw | src/nl/uu/cs/ssm/Machine.java:308-313 | BINOP pops `b` and then `a`, and leaves `execBinop(a, b)` one stride lower; nothing else changes |
| MachineLaws.StepBinop | src/nl/uu/cs/ssm/Machine.java:297-313 | a BINOP step: PC past the opcode, SP one stride lower, the result replacing both operands, no other cell or register changed |
| MachineLaws.LinkLaw | src/nl/uu/cs/ssm/Machine.java:406-412 | LINK saves MP just above SP, points MP there and reserves the locals |
| MachineLaws.UnlinkLaw | src/nl/uu/cs/ssm/Machine.java:474-477 | UNLINK drops the frame down to MP and restores the saved MP |
| MachineLaws.UnlinkAfterLink | src/nl/uu/cs/ssm/Machine.java:406-477 | UNLINK on the frame LINK left restores the SP and MP from before the LINK |
| MachineLaws.StepLink | src/nl/uu/cs/ssm/Machine.java:406-412 | a LINK step: MP points at the saved MP just above the old SP and PC is past the LINK and its operand |
| MachineLaws.LinkThenUnlink | src/nl/uu/cs/ssm/Machine.java:406-477 | LINK followed by UNLINK, as two machine steps, restores SP and MP whatever the number of locals |
| MachineLaws.BsrLaw | src/nl/uu/cs/ssm/Machine.java:343-346 | BSR pushes the return address and branches by its operand |
| MachineLaws.RetLaw | src/nl/uu/cs/ssm/Machine.java:417-419 | RET pops the return address into PC |
| MachineLaws.BsrThenRet | src/nl/uu/cs/ssm/Machine.java:343-419 | BSR followed by the RET it branches to returns just past the BSR and its operand, with SP and MP restored |
| MachineLaws.SthLaw | src/nl/uu/cs/ssm/Machine.java:600-607 | STH grows HP by exactly one, leaves SP where it was with the old HP on top, and (unless HP is SP) stores the popped word at the old HP |
| MachineLaws.StepSth | src/nl/uu/cs/ssm/Machine.java:600-607 | an STH step: HP grows by one, SP is unchanged, the old HP is on top and (unless HP is SP) holds the popped word, PC is past the STH |
| MachineLaws.StmhLaw | src/nl/uu/cs/ssm/Machine.java:609-622 | STMH grows HP by `size`, moves SP down by `size` and one up, puts HP + size - 1 in that slot, and leaves every other cell as the move of the `size` words above the new SP to the heap from HP prescribes; PC, output and the halted flag are unchanged |
| MachineLaws.StepStmh | src/nl/uu/cs/ssm/Machine.java:609-622 | an STMH step: HP grows by the inline size, HP + size - 1 is on top, the popped words are moved to the heap from HP, and PC is past the operand |
| MachineLaws.IllegalAfterBinopRuns | src/nl/uu/cs/ssm/Machine.java:147-170 | as written, an illegal opcode after a BINOP is reported but does not halt the machine: the BINOP category runs with HALT's code |
| MachineLaws.IllegalAfterOpHalts | src/nl/uu/cs/ssm/Machine.java:147-170 | as written, an illegal opcode after an OP instruction halts the machine |
| MachineLaws.IllegalHaltsWhenFixed | src/nl/uu/cs/ssm/Machine.java:147-170 | corrected, an illegal opcode always halts: one report, one "machine halted", PC past it, nothing else changed |
| MachineLaws.FixedAgreesOnLegal | src/nl/uu/cs/ssm/Machine.java:147-170 | the corrections change no step on a legal opcode other than LSR, ROL and ROR |
| Utils.HexChar | src/nl/uu/cs/ssm/Utils.java:107-116 | a hexadecimal digit character reads back through `toDigit` as its value |
| Utils.ToDigit | src/nl/uu/cs/ssm/Utils.java:107-116 | `toDigit` gives a value from -1 to 15, and is non-negative exactly on 0-9, a-f and A-F |
| Utils.ToHexString | src/nl/uu/cs/ssm/Utils.java:42 | `Integer.toHexString` writes one to eight lower-case hexadecimal digits |
| Utils.AsHexWith | src/nl/uu/cs/ssm/Utils.java:34-55 | the result starts with "-" iff a negative value is printed signed; without hexadecimal as the default it carries "0x" iff the printed magnitude is 10 or more; with hexadecimal as the default and zero padding it is eight characters, nine with a sign |
| Utils.AsHexDefault | src/nl/uu/cs/ssm/Utils.java:57-60 | `asHex(i, true)` is eight characters; `asHex(i, false)` carries "0x" iff `i >= 10`; `fromHex` with the same default reads it back as `i`, except a negative `i` printed with decimal as the default |
| Utils.AsHex | src/nl/uu/cs/ssm/Utils.java:62-65 | `asHex(i)` is always eight lower-case hexadecimal digits |
| Utils.FromHex | src/nl/uu/cs/ssm/Utils.java:136-162 | the parsing loop returns exactly `FromHexValue`: the digits up to the first invalid one, wrapped to 32 bits, with the sign applied only when every character was a digit |
| Utils.FromHexValue | src/nl/uu/cs/ssm/Utils.java:136-162 | a string with no digit where its digits should start reads as 0 |
| Utils.IsNumberRepr | src/nl/uu/cs/ssm/Utils.java:118-134 | `isNumberRepr` holds exactly when every character after the sign and prefix is a digit of the default radix |
| Utils.AsHexRoundTrip | src/nl/uu/cs/ssm/Utils.java:34-161 | `fromHex(asHex(i), true) == i` for every 32-bit `i` |
| Utils.AsHexWithRoundTrip | src/nl/uu/cs/ssm/Utils.java:34-161 | `fromHex(asHex(i, h, signed, pad), h) == i`, except where `asHex` writes hexadecimal digits without "0x" with decimal as the default |
| Utils.DecimalRoundTrip | src/nl/uu/cs/ssm/Utils.java:136-161 | `fromHex("" + i, false) == i` for every 32-bit `i` |
| Utils.NumberReprIsParsed | src/nl/uu/cs/ssm/Utils.java:118-161 | when `isNumberRepr` accepts `s`, `fromHex` consumes every character and applies the sign |
| Utils.FromHexStopsEarly | src/nl/uu/cs/ssm/Utils.java:152-158 | at the first non-digit `fromHex` returns what it has read so far, without the sign |
| Utils.NumberReprRejectsHexLetters | src/nl/uu/cs/ssm/Utils.java:118-134 | as written, `isNumberRepr("0xff", false)` is false, although `fromHex` reads all of it as 255 |
| Utils.NumberReprFixedIsParsed | src/nl/uu/cs/ssm/Utils.java:118-161 | the corrected check accepts exactly the strings `fromHex` reads to the end (both directions), and then the value carries the sign |
| Utils.IndexOfChar | src/nl/uu/cs/ssm/Utils.java:91 | `indexOf(c)`: the first position of `c`, or -1 when it does not occur |
| Utils.SplitAt | src/nl/uu/cs/ssm/Utils.java:86-105 | `splitAt`: no piece holds the separator, joining the pieces gives `s` back (with a trailing separator dropped), and only the empty string gives no pieces |
| Utils.RepeatedLength | src/nl/uu/cs/ssm/Utils.java:169-175 | `l` repetitions of `s` are `l * |s|` long |
| Utils.Repeat | src/nl/uu/cs/ssm/Utils.java:169-175 | the loop appends `s` exactly `l` times, and a negative count gives the empty string |
| Utils.PpList | src/nl/uu/cs/ssm/Utils.java:246-261 | `ppList(e, o, s, c)` is `o`, the elements separated by `s`, then `c` |
| Utils.PpListBracketed | src/nl/uu/cs/ssm/Utils.java:236-244 | `ppList(list)` brackets the elements and separates them with commas |
| Utils.IndexOf | src/nl/uu/cs/ssm/Utils.java:263-269 | `indexOf(a, v)` returns `v` itself when it occurs, and -1 otherwise |
| Utils.Contains | src/nl/uu/cs/ssm/Utils.java:271-274 | `contains(a, v)` holds iff `v` occurs and is non-negative |
| Utils.LastIndexOfChar | src/nl/uu/cs/ssm/Utils.java:221 | `lastIndexOf(c)`: the last position of `c`, or -1 when it does not occur |
| Utils.GetExtension | src/nl/uu/cs/ssm/Utils.java:217-228 | there is an extension iff a dot follows the first character and the name does not end in a dot; it is then the lower-cased text after the last dot |
| Utils.ToLower | src/nl/uu/cs/ssm/Utils.java:225 | lower-casing keeps the length and maps each character |
| Help.LessIrreflexive | src/nl/uu/cs/ssmui/Help.java:1 | `compareTo` never ranks a string below itself |
| Help.LessTransitive | src/nl/uu/cs/ssmui/Help.java:1 | `compareTo`'s order is transitive |
| Help.LessTotal | src/nl/uu/cs/ssmui/Help.java:1 | `compareTo` orders any two different strings |
| Help.Less | src/nl/uu/cs/ssmui/Help.java:1 | `compareTo` ranks `a` below `b` iff `a` is a proper prefix of `b` or has the smaller character at the first difference |
| Help.InsertionPoint | src/nl/uu/cs/ssmui/Help.java:1 | `addSorted` inserts before the first topic whose key is strictly greater, after all others |
| Help.InsertedShape | src/nl/uu/cs/ssmui/Help.java:1 | `addSorted` grows the vector by one, puts the topic at the insertion point and keeps the rest in order around it |
| Help.InsertedSorted | src/nl/uu/cs/ssmui/Help.java:1 | `addSorted` keeps a sorted vector sorted |
| Help.InsertedStable | src/nl/uu/cs/ssmui/Help.java:1 | `addSorted` is stable: the new topic lands after every topic with an equal key and before every greater one |
| Help.TopicVector.AddSorted | src/nl/uu/cs/ssmui/Help.java:1 | the scanning loop leaves the vector exactly as `Inserted` |
| Help.WantedMatches | src/nl/uu/cs/ssmui/Help.java:1 | lower-casing the key once up front tests exactly what matching the lower-cased key against the lower-cased topic does |
| Help.MatchingOfMembers | src/nl/uu/cs/ssmui/Help.java:1 | a supplier offers exactly its own topics that match |
| Help.CandidatesMembers | src/nl/uu/cs/ssmui/Help.java:1 | the candidates are exactly the topics of some supplier that match |
| Help.InsertAllSorted | src/nl/uu/cs/ssmui/Help.java:1 | inserting any sequence of topics into a sorted vector leaves it sorted |
| Help.InsertAllContents | src/nl/uu/cs/ssmui/Help.java:1 | inserting a sequence of topics adds exactly those topics |
| Help.InsertAllAppend | src/nl/uu/cs/ssmui/Help.java:1 | inserting two sequences one after the other is inserting their concatenation |
| Help.FoundSorted | src/nl/uu/cs/ssmui/Help.java:1 | the result of `findTopics` is sorted, and holds each matching topic as often as the suppliers offer it |
| Help.FoundExactly | src/nl/uu/cs/ssmui/Help.java:1 | a topic is found iff it belongs to a supplier and matches the key |
| Help.FoundAllWithoutKey | src/nl/uu/cs/ssmui/Help.java:1 | with a null key every topic of every supplier is found |
| Help.Index.AddHelpSupplier | src/nl/uu/cs/ssmui/Help.java:1 | `addHelpSupplier` appends the supplier |
| Help.Index.FindTopics | src/nl/uu/cs/ssmui/Help.java:1 | the two loops of `findTopics` compute exactly `Found`: the matching topics of every supplier, inserted one by one with `addSorted` |
| CliTestRunner.FirstDiff | src/nl/uu/cs/ssmui/CliTestRunner.java:50-66 | the first position where the printed text leaves the expected output: everything before it matches, and there the characters differ or the expected output has ended |
| CliTestRunner.LeavesAtUnique | src/nl/uu/cs/ssmui/CliTestRunner.java:50-66 | there is only one such first position |
| CliTestRunner.DiffPrefix | src/nl/uu/cs/ssmui/CliTestRunner.java:47-69 | printing a prefix of the expected output consumes exactly that prefix |
| CliTestRunner.Diff | src/nl/uu/cs/ssmui/CliTestRunner.java:47-69 | `checkDiff` succeeds iff the text is a prefix of the expected output, which it then consumes, or all of it followed by one line break, which empties it |
| CliTestRunner.DiffFirstMismatch | src/nl/uu/cs/ssmui/CliTestRunner.java:61-65 | the first differing position is reported as the failure |
| CliTestRunner.DiffPastEnd | src/nl/uu/cs/ssmui/CliTestRunner.java:51-59 | text past the end of the expected output fails with its first extra character, unless that is a single final line break |
| CliTestRunner.Runner.CheckDiff | src/nl/uu/cs/ssmui/CliTestRunner.java:47-69 | the loop computes `Diff`, and on a match the expected output loses what was matched; on a failure it is left as it was |
| CliTestRunner.Runner.Print | src/nl/uu/cs/ssmui/CliTestRunner.java:40-45 | `print(s)` checks `s` alone |
| CliTestRunner.Runner.Println | src/nl/uu/cs/ssmui/CliTestRunner.java:30-38 | `println(s)` checks `s` and then a line break; the "machine halted" of a halted machine is not checked |
| CliTestRunner.PrintlnLine | src/nl/uu/cs/ssmui/CliTestRunner.java:30-38 | `println` of the next expected line consumes it and its line break |
| CliTestRunner.PrintlnOutcome | src/nl/uu/cs/ssmui/CliTestRunner.java:30-38 | `println(s)` skips "machine halted" on a halted machine; otherwise it succeeds iff the expected output goes on with `s` and then a line break or ends, or is `s` without its final line break |

## Left out

- Observers, change events and memory annotations (`annote`, `setAnnotationAt`) are not modelled. They do not affect the machine's registers, memory or output.
- Console and file I/O are parameters of a step (`Env`): the `Messenger` prompts, `openFile`, `readFile`, `writeFile` and `closeFile`. Output is recorded as a sequence of messages, not written anywhere.
- TRAP PR_CHAR records the popped code point. The `UnsupportedEncodingException` branch of `codePointToString` is not modelled.
- The instruction table (`Instruction.findByCode`, the opcode numbers, the trap numbers and `srMatchesCCInfo`) is not part of this model. It is a field of the configuration. Instructions of category OP that the engine has no case for are one constructor, `IUnimplemented`.
- MachineSpec.Step: DIV and MOD by zero throw `ArithmeticException` in Java. The step is defined only when the divisor is non-zero (`StepDefined`), so the exception is not modelled.
- MachineSpec.PopName: Java's file-name loop runs until it pops a 0. The model bounds it by 2^32 pops, which is enough whenever some memory word is 0. It does not model a loop that never ends.
- MachineSpec.Opnd: an operand the current instruction does not have reads as 0. Java would throw `ArrayIndexOutOfBoundsException`, which cannot happen on a consistent state (`Valid`, kept by every step).
- MachineSpec.MemAt and MachineSpec.SetMem: memory is an unbounded map from 32-bit addresses, and a cell never written reads 0. Memory.java is not part of this model. Its array is not modelled, nor its growth by at most `allowedAutomaticMemoryIncrease` words per access, nor the fault on an address beyond that. No step fails on an address.
- MachineSpec.Reg: the registers are a map from register numbers, and a number never written reads 0. Registers.java is not part of this model, so a register number outside the machine's set reads 0 and writing it creates it. The Java code would fail there instead.
- MachineSpec.StoreMultipleHeap: Registers.java is not part of this model, so `adjustHP(size)` is read as a plain `HP + size`, without the stride. With stride -1 the heap words land at HP, HP - 1, …, HP - size + 1, the way `copyMem` walks. HP still rises by `size`, and the pushed HP + size - 1 is then not a cell the instruction wrote (`MachineLaws.StmhLaw` states this as it is).
- Help.Less: Java's `compareTo` compares UTF-16 code units, and the model compares characters as Unicode scalar values. The two orders differ only when a character above U+FFFF meets one from U+E000 to U+FFFF at the first difference.
- Utils.ToLower: Java's `toLowerCase` follows Unicode. The model lower-cases the ASCII letters only.
- Utils.FromHex and Utils.IsNumberRepr: the source reads the first character without a length check and throws on the empty string. The model requires a non-empty string.
- Utils.GetExtension works on the file name. `File.getName` is not modelled.
- Utils.PpList works on the elements' printed forms. `toString` of arbitrary objects is not modelled.
- The other members of `Utils.java` are not modelled: `addAllTo`, `asVector`, `withoutExtension`, `ExtensionFileFilter`, scrolling, `codePointToString` and `readFile`. They are Swing, file-system or collection-copying helpers.
- HelpTopic.java and the help suppliers are not part of this model. A supplier is the sequence its topic enumeration yields, and a topic's printed form is its name.
- CliTestRunner: the calls to `super.println`/`super.print` are not modelled, and neither are the `System.exit` and the text of the failure messages. A failure is the `Failed` outcome, naming the printed and the expected character. In the source's message the two labels are swapped: the printed character is called "expected".
- The rest of the program (the user interface, the assembler, `Runner`, `StackTableModel`, `Config`) is not part of this model.

## Findings

| source | as written | input that shows it | evidently intended | confidence | as-written member | corrected member |
|---|---|---|---|---|---|---|
| src/nl/uu/cs/ssm/Machine.java:154-160 | for an illegal opcode, `fetchNextInstr` returns HALT's code but leaves the previous instruction current, and `executeOne` dispatches on that instruction's category | an illegal opcode right after an ADD: the BINOP category runs with HALT's code, which pops two words and pushes the left one back, and the machine does not halt | an illegal opcode halts the machine | not executed | MachineLaws.IllegalAfterBinopRuns | MachineLaws.IllegalHaltsWhenFixed |
| src/nl/uu/cs/ssm/Machine.java:212-222 | LSR, ROL and ROR use the arithmetic shift `>>`, which copies the sign bit | LSR(-8, 1) is -4, not 0x7FFFFFFC; ROL(`Integer.MIN_VALUE`, 1) is -1, not 1 | a logical shift (`>>>`) and true rotations | not executed | Alu.RolSmearsSign | Alu.ExecBinopFixed |
| src/nl/uu/cs/ssm/Utils.java:118-134 | with decimal as the default, `isNumberRepr` skips a "0x" prefix but then checks decimal digits, while `fromHex` reads hexadecimal after it | `isNumberRepr("0xff", false)` is false, although `fromHex("0xff", false)` reads all of it as 255 | check the digits in the radix `fromHex` uses | not executed | Utils.NumberReprRejectsHexLetters | Utils.NumberReprFixedIsParsed |
