# RackVM: a verification model

RackVM is a small toolchain around a virtual machine: a compiler from typed source
trees to labelled stack assembly, a two-pass assembler, and an interpreter with a heap
of its own. This project models the integer path through all of it in stack mode, plus
the heap allocator, and proves what the stages owe each other. Objects that the
original updates in place are classes here, each method proved against a function on
values; the properties are lemmas about those functions.

**Compiler** (`compiler/`). `Types` has the promotion rules, `Scopes` the scope stack
and the ordinals `DeclVar` hands out, `Code` and `Functions` the code generated for
statements and functions, `Generator` the generator that appends to buffers and
back-patches jumps, `Labels` and `Linking` what `Flush` makes of those jumps. `Machine`
is the machine the generator writes for: its variables are named by ordinal, as the
generator emits them, not by byte offset, so the generated text is not fed to the
interpreter model. `Naming` gives the source language a meaning of its own, with nested
environments of names, and the main result is `CompiledFunctionCorrect`: the code of a
whole compiled function returns what its source returns, in as many cells as the value's
type has, and traps when a division does. `Acceptance` says on names and types alone
which programs are accepted. `Programs` carries the result from a list of source
functions through the generator and `Flush` to calls by label in the listing; `Returns`
compares the cells a call leaves with the type the function is declared with.

**Assembler and decoder** (`assembler/`, `vm/vm.c`). `Encoding` has the instruction
constructors as bit expressions on three words and the packed layouts as byte reads;
`StackSet` the operand shapes, byte sizes and interpreter advances of every stack
opcode; `Layout` and `Assembler` the two passes. `LabelMachine` is the machine an
assembly programmer has in mind, whose calls push instruction numbers; `Simulation`
and `Executable` show that the emitted bytes do the same step for step.

**Interpreter** (`vm/stack_impl.h`, `vm/shared_impl.h`). `Vm` is the step relation over
32-bit cells, `sp`, `stackFrame` and `instrPtr`; `Interpreter` the dispatch loop over an
array; `Instructions` what every opcode does, in cells and integers; `Frames` nested calls;
`SysPrint` the argument walk of the print call.

**Heap** (`vm/vm_memory.c`). Headers live in the same buffer as the payloads. The
allocator is modelled as written, faults included, and each call is given the exact
condition under which it does what its caller expects, told from the heap before the
call. For a realloc that moves that takes two modules: `HeapRoom` for an allocation that
leaves room for a header, `HeapExactFit` for one that does not. `HeapRuns` then refines
every run of calls that meet their conditions to a plain map from blocks to contents.
`HeapFaults` has ordinary runs from a new heap after which a free, an allocation or a
shrink does harm, and one whose realloc moves into a block that fits exactly and does none.

Where the code differs from what its comments suggest, the model follows the code:

- A split or a join leaves the `prev` pointer of the following header as it was, so a
  later free may follow a `prev` that no longer names the block before it.
- An allocation whose block fits exactly makes the new header its own successor.
- A shrink of a block whose successor is in use drops that successor from the list.
- A 64-bit comparison leaves one cell although its node stays typed long; a cast of it
  to long generates nothing. Stored in a long it takes a cell of the caller's with it, and
  a function declared long that returns one leaves a single cell.
- A return without a value passes in a function of any type, and leaves no cell.
- An argument made only of `.f-0123456789` is read as a number, and one with a `+`, `-`, `*`
  or `/` is split there: a jump to a label `f` or `-x` makes assembly fail, though the first
  pass takes both labels.
- The heap size query counts a block's header.
- Two functions of one name share a buffer, and only the first of them can be called.
- An error of the type checker or of `AddFunc` is a message: parsing goes on, and code is
  generated and written all the same. The model ends at the first error.
- `INV.64` looks only at the low cell of its operand; `CPZ.64` answers in two cells.
- `STMI.64` and `LDMI.64` declare a 64-bit operand but are written and read with 32 bits.
- The count `Assemble` returns leaves out `.BYTE` data.
- A print call with a single argument lowers the stack by one cell whatever it printed.

The stack operation macros leave their sequencing open in C; they are read as their
comments say, popping two values and pushing one.

## Model

| member | source | states |
|---|---|---|
| Types.PromotionIsTotal | compiler/types.hpp:444-453 | two integer operands are never rejected; the rewritten node's operands have its type, and it is long exactly when one of them was |
| Types.AssignmentExact | compiler/types.hpp:557-590 | an assignment is an error exactly when it would narrow a long to an int; otherwise the value gets the target's type, and checking again changes nothing |
| Naming.WidenedSame | compiler/types.hpp:333-345 | a literal widened in place and an expression under ITOL have the value they had, sign-extended |
| CodeShape.ShapeExact | compiler/code_generator.cpp:467-523 | every generated instruction finds operands of the width its mnemonic works on exactly when the tree is consistent, and then the code leaves one value of the stated width |
| CodeShape.StmtsShape | compiler/code_generator.cpp:118-154 | the same for statement lists on any stack: every instruction finds operands of its width exactly when the list is consistent |
| Returns.FunctionShape | compiler/code_generator.cpp:83-116 | and for whole functions entered with arguments of their parameters' widths |
| Types.DivisionExact | vm/stack_impl.h:210-216 | a division traps exactly on a zero divisor or an unrepresentable quotient, and otherwise never wraps: the remainder is smaller than the divisor and has the dividend's sign |
| Types.ArithmeticExact | vm/stack_impl.h:157-208 | ADD, SUB and MUL give the value of their width that differs from the sum, difference or product of the integers by a multiple of its range |
| Types.ComparisonExact | vm/stack_impl.h:278-386 | comparisons give 1 or 0 by the order of the integers, `or` 0 exactly for two zeros, `and` 0 exactly when one operand is zero |
| Words.WrapExact | vm/stack_impl.h:157-160 | wrapping gives the one value of the width that differs by a multiple of its range |
| Words.CellsExact | vm/stack_impl.h:76-78 | a 64-bit value lies on the stack as its low 32 bits and, above them, its high 32 bits |
| Words.QuotientTruncates | vm/stack_impl.h:210-216 | what a quotient leaves over is smaller than the divisor and has the dividend's sign |
| Code.ExprCorrect | compiler/code_generator.cpp:156-200 | from any stack and variables the code of a consistent expression pushes exactly its value and changes nothing else, or traps where a division does; both sides of and/or are evaluated |
| Code.StmtCorrect | compiler/code_generator.cpp:118-154 | a statement's code, wherever it stands, ends just past its last instruction with the variables of direct evaluation and the stack as it was, or returns, or traps |
| Code.StmtsCorrect | compiler/code_generator.cpp:134-139 | the same for statement lists, each placed behind the code of those before it |
| Code.BranchRuns | compiler/code_generator.cpp:337-358 | a condition and its BRZ go to the next instruction or to `jumpAfter` + 1, with the stack as it was |
| CodeShape.StmtsJumps | compiler/code_generator.cpp:332-373 | every jump of a statement list goes strictly forward and no further than just past its end |
| Machine.ForwardHalts | compiler/code_generator.cpp:332-373 | code whose branches all go forward stops within its length: no instruction runs twice |
| Functions.AddFuncEndsInReturn | compiler/compiler.cpp:122-133 | a void body gets a final return, any other is an error exactly when it has none |
| Functions.JumpsInRange | compiler/code_generator.cpp:245-263 | in a function that ends in a return, `jumpAfter` + 1 of every jump is a later instruction of that function, and only the first instruction has a label |
| Functions.BuffersHoldFunctions | compiler/code_generator.cpp:83-116 | with distinct names, every function that is not a system function has exactly its own code under its name |
| Functions.BufferStartsWith | compiler/code_generator.cpp:83-116 | nothing rejects two functions of one name; in any list, a buffer starts with the code of the first function of its name |
| Linking.FirstOfNameRuns | compiler/code_generator.cpp:83-116 | running the buffer of a name performs the first function of that name and never reaches another |
| Functions.ArgsArrive | compiler/code_generator.cpp:94-105 | each argument ends in its own variable, nothing else is written |
| Functions.ArgCellsInOrder | compiler/code_generator.cpp:94-105 | a caller's argument values lie in order, the first lowest, each in the cells of its type |
| Functions.PrologueCorrect | compiler/code_generator.cpp:94-105 | the prologue consumes exactly the argument cells, last argument first |
| Functions.FunctionCorrect | compiler/code_generator.cpp:83-116 | running a function's code for as many steps as it has instructions gives the result of executing its body on its arguments, with the caller's stack below the result |
| Generator.StackCodeGenerator.constructor | compiler/code_generator.cpp:65-77 | no buffers, the label counter at 0 |
| Generator.StackCodeGenerator.AddInstruction | compiler/code_generator.hpp:148-154 | one instruction appended to the current buffer, its index returned and remembered |
| Generator.StackCodeGenerator.TranslateExpression | compiler/code_generator.cpp:156-200 | exactly the expression's code is appended |
| Generator.StackCodeGenerator.TranslateStatement | compiler/code_generator.cpp:118-154 | exactly the statement's code is appended, its jumps patched |
| Generator.StackCodeGenerator.TranslateIf | compiler/code_generator.cpp:332-360 | without an else part, BRZ is patched to the last instruction of the branch |
| Generator.StackCodeGenerator.TranslateIfElse | compiler/code_generator.cpp:332-373 | with an else part, BRZ is patched to the JMP that ends the branch and that JMP to the last instruction of the else part |
| Generator.StackCodeGenerator.Patch | compiler/code_generator.hpp:156-163 | only `jumpAfter` of the given instruction of the current function changes |
| Generator.StackCodeGenerator.TranslateStatements | compiler/code_generator.cpp:345-346 | the statements' code is appended in order |
| Generator.StackCodeGenerator.TranslateArguments | compiler/code_generator.cpp:98-104 | one store per argument, in reversed order |
| Generator.StackCodeGenerator.TranslateFunction | compiler/code_generator.cpp:91-112 | prologue and body are appended to the buffer of that name, and its first instruction carries the name |
| Generator.StackCodeGenerator.TranslateFunctions | compiler/code_generator.cpp:83-116 | the buffers are those of all functions but the system functions |
| Generator.StackCodeGenerator.CreateLabel | compiler/code_generator.hpp:143-146 | the label of the current counter value, and the counter goes up by one |
| Generator.StackCodeGenerator.ResolveFunction | compiler/code_generator.cpp:243-273 | every jump's operand becomes the label of the instruction it goes to; existing labels stay, missing ones are made from fresh counter values |
| Generator.StackCodeGenerator.ResolveLabels | compiler/code_generator.cpp:239-273 | the same for all functions, each between two values of the rising counter |
| Generator.StackCodeGenerator.Flush | compiler/code_generator.cpp:226-294 | the output is the functions' resolved instructions, one function after the other |
| Labels.LabelTextInjective | compiler/code_generator.hpp:143-146 | different counter values give different label texts |
| Decimal.DigitsExact | assembler/label.cpp:34-36 | a number's text is its decimal numeral without leading zeros |
| Linking.LabelsDistinct | compiler/code_generator.cpp:239-273 | no two instructions of the whole program have the same label |
| Linking.FoundAt | compiler/code_generator.cpp:253-259 | looking a label up in the listing finds the one instruction that carries it |
| Linking.ProgramCorrect | compiler/code_generator.cpp:226-294 | from a name's label in resolved buffers laid out one after the other, with jumps going where their label operands stand, execution gives the result of the function the buffer starts with |
| Programs.FlushedFrom | compiler/code_generator.cpp:239-273 | translating any list of functions and making the first pass of Flush over their buffers leaves what ProgramCorrect asks for |
| Programs.ProgramPerforms | compiler/compiler.cpp:82-96 | for any list of accepted source functions, overloads included, and any order of their buffers, every covered call by label in the flushed listing ends as the first function of that name does |
| Programs.Generate | compiler/compiler.cpp:82-96 | translating the functions of a program and flushing them gives such a listing |
| Programs.SecondIsLost | compiler/compiler.cpp:180-213 | of two functions that return 1 and 2 under one name, the second cannot be called |
| Programs.ArgumentCovered | compiler/compiler.cpp:82-96 | calls with arguments are among those covered |
| Scopes.RackCompiler.EnterScope | compiler/compiler.hpp:98 | one empty scope more |
| Scopes.RackCompiler.ExitScope | compiler/compiler.hpp:99 | the innermost scope and its bindings are gone, the counters stay |
| Scopes.RackCompiler.DeclVar | compiler/compiler.cpp:148-164 | the name is bound in the innermost scope to the next ordinal of its kind, or rejected when that scope has it or there is none |
| Scopes.RackCompiler.UseVar | compiler/compiler.cpp:166-178 | the innermost binding of the name, or an error |
| Scopes.DeclareExact | compiler/compiler.cpp:148-164 | a declaration is accepted exactly when there is a scope and the innermost one does not have the name; only that scope and one counter change |
| Scopes.LookupExact | compiler/compiler.cpp:166-178 | a use means the binding of the innermost scope that has the name |
| Acceptance.ExprAccepted | compiler/types.hpp:385-475 | an expression is accepted exactly when every name it uses is bound; its node is long exactly when the operands' types make it so |
| Acceptance.StmtAccepted | compiler/compiler.cpp:148-178 | a statement is accepted exactly when every name used is bound, none is declared twice in one scope, no store narrows and a value returned has the declared type, all told on names and types |
| Acceptance.StmtsAccepted | compiler/compiler.cpp:148-178 | the same for statement lists, each in the names the ones before it leave in scope |
| Acceptance.FunctionAccepted | compiler/compiler.cpp:110-138 | a function is accepted exactly when its parameters have different names, its body is accepted with them in scope, and it is void or ends in a return |
| Acceptance.ShadowingAccepted | compiler/compiler.cpp:157-161 | `int f() { int x = 1; { int x = 2; } return x; }` is accepted and returns 1 |
| Scopes.SlotsInOrder | compiler/compiler.cpp:153-158 | over any nesting of scopes the declarations take the local ordinals in order, each exactly once |
| Scopes.SlotsInOrderAll | compiler/compiler.cpp:153-158 | the same for statement lists |
| Naming.LookupAgrees | compiler/compiler.cpp:166-178 | a name is found exactly when the source binds it, with the type and value of its innermost binding |
| Naming.ExprMeans | compiler/types.hpp:385-475 | the rewritten tree of a source expression has the source's value, ints sign-extended where they meet longs, and its code leaves the cells of the value's type |
| Naming.StmtMeans | compiler/compiler.cpp:148-178 | a statement on flat slots does what it does on nested name environments: the innermost binding is used and bindings end with their block |
| Naming.StmtsMean | compiler/compiler.cpp:148-178 | the same for statement lists |
| Naming.ArgsMatch | compiler/code_generator.cpp:94-105 | after the prologue every parameter's slot holds its argument, and no two names share a slot |
| Naming.CompiledFunctionCorrect | compiler/compiler.cpp:110-138 | the generated code of an accepted function, run on its arguments, returns the value the named source returns, in one or two cells by its type, or traps when the source does; the body must be consistent |
| Returns.ReturnExact | compiler/compiler.cpp:225-237 | an accepted, consistent return leaves the cells of the declared type exactly when it returns that type; when not, nothing is returned where a value is declared, or an int where a long is |
| Returns.DeclaredResult | compiler/compiler.cpp:110-138 | when every return of an accepted function leaves the declared width, a call leaves a value of the declared type in its cells, or nothing when the function is void |
| Returns.ComparisonStored | compiler/code_generator.cpp:467-523 | `long f(long a) { long x = a is a; return x; }` is accepted and not consistent: its store takes a cell of the caller's, and with none below it underflows |
| Returns.ComparisonReturned | compiler/code_generator.cpp:467-523 | `long f(long a) { return a is a; }` is accepted and leaves one cell where its caller expects two |
| Returns.NothingReturned | compiler/compiler.cpp:225-228 | `long f() { return; }` is accepted and leaves no cell where its caller expects two |
| Encoding.Placed | assembler/encoder.hpp:61-195 | the shifts and masks of every constructor put each operand at the offset its packed layout reads |
| Encoding.RoundTrip | assembler/encoder.hpp:61-195 | opcode and operands are read back from the emitted bytes whatever lies behind them |
| Encoding.StreamRoundTrip | vm/vm.c:89-205 | decoding a concatenation of encodings instruction by instruction gives the list back, wherever it lies in memory |
| Encoding.LittleEndian | vm/vm.c:89-205 | a loaded word is the sum of its bytes, the one at the lowest address counting least |
| StackSet.TablesAgree | assembler/encoder.cpp:536-653 | for every opcode the interpreter's advance and operand reads agree with the assembler's byte size, and an argument is asked for exactly where an operand is read; only STMI.64 and LDMI.64 declare more than they store |
| StackSet.DecodersAgree | vm/vm.c:211-227 | the union and the bitmask decoder read the same operation from any fetched word |
| StackSet.DecodesToMeaning | vm/vm.c:211-227 | either decoder reads from the bytes of an instruction the operation it was written for, with no use of what lies behind |
| Instructions.LoadExact | vm/stack_impl.h:118-134 | LDL, LDL.64, LDA and LDA.64 push the cell or cells at `frame + 1 + offset / 4` for a local and at `frame - offset / 4` for an argument, and change nothing else |
| Instructions.StoreExact | vm/stack_impl.h:136-152 | STL, STL.64, STA and STA.64 pop one or two cells into those |
| Instructions.ArithmeticRuns | vm/stack_impl.h:157-216 | ADD, SUB, MUL and DIV replace two cells by their wrapped sum, difference, product or quotient, or trap |
| Instructions.WideArithmeticRuns | vm/stack_impl.h:160-216 | their 64-bit forms replace four cells by two |
| Instructions.LogicRuns | vm/stack_impl.h:279-290 | OR and AND leave 1 or 0 |
| Instructions.ComparisonRuns | vm/stack_impl.h:279-382 | each 32-bit comparison opcode leaves 1 or 0 by the order of the two cells, the lower one being the left operand |
| Instructions.WideComparisonRuns | vm/stack_impl.h:282-386 | each 64-bit comparison opcode leaves 1 or 0 in one cell in place of four |
| Instructions.BitsRun | vm/stack_impl.h:252-276 | BOR, BXOR and BAND combine the bits of two cells |
| Instructions.WideBitsRun | vm/stack_impl.h:256-276 | and of two pairs of cells |
| Instructions.BitsExact | vm/stack_impl.h:252-276 | a cell's bits are its value modulo 2^32 and give it back |
| Instructions.WideBitsExact | vm/stack_impl.h:256-276 | the same for 64 bits |
| Instructions.UnaryRuns | vm/stack_impl.h:228-424 | INV, NEG and CPZ on one cell; ITOL adds a cell of sign bits |
| Instructions.WideUnaryRuns | vm/stack_impl.h:240-441 | NEG.64 and CPZ.64 on two cells; LTOI keeps the lower one |
| Instructions.TooFewCells | vm/stack_impl.h:157-160 | with fewer cells on the stack than the operands take, nothing is computed |
| Instructions.LiteralRuns | vm/stack_impl.h:72-78 | LDI pushes its operand as a signed number, LDI.64 its low and its high half |
| Instructions.BranchRuns | vm/stack_impl.h:404-408 | BRZ and BRNZ pop a cell and go to the operand's address when it is zero, or when it is not |
| Instructions.JumpRuns | vm/stack_impl.h:411-418 | JMP, JMPI, BRIZ and BRINZ, with the cells they take their target from |
| Instructions.CallRuns | vm/shared_impl.h:42-48 | CALL pushes the frame pointer and the return address, the frame starts there, and control goes to the operand's address |
| Instructions.ReturnRuns | vm/shared_impl.h:50-72 | RET, RET.32 and RET.64 put no, one or two topmost cells in place of the arguments and go on at the return address in the caller's frame |
| Instructions.PlainRuns | vm/stack_impl.h:50-52 | NOP goes on, EXIT ends with 0, an unknown opcode with 100 |
| Instructions.TagExact | vm/shared_impl.h:90-148 | the upper four bits of a tag give its value one or two cells, the lower four its size in bytes |
| Instructions.TagRuns | vm/shared_impl.h:95-97 | SARG adds its operand to the tags, of which there is room for eight |
| Instructions.SysCallRuns | vm/shared_impl.h:74-88 | SCALL forgets the tags; print lowers `sp` by one, or by what two or more size nibbles add up to |
| Instructions.TurnExact | vm/stack_impl.h:46-553 | a turn ends the run with 0 at the end of the code, and with 101 when it leaves `sp` at 512 or above |
| Instructions.InitialExact | vm/vm.c:333-349 | the two marks at the bottom of the stack |
| Layout.LayoutAgrees | assembler/assembler.cpp:497-531 | the address the first pass records for a label is the number of bytes the second pass has written when it reaches that line, modulo 2^32 |
| Layout.TotalSize | assembler/assembler.cpp:437-464 | the second pass writes as many bytes as the first pass counted |
| Layout.ErrorsExact | assembler/assembler.cpp:345-350 | the first pass reports an error exactly when a label is already taken or an instruction has the wrong number of arguments |
| Layout.LabelsReadExact | assembler/assembler.cpp:131-214 | the text of an argument is resolved as a label exactly when some character is outside `.f-0123456789` and none is one of `+-*/`; a minus sign is never left for the label branch |
| Layout.PredefinedExact | assembler/label.cpp:32-49 | the 32 registers under their numbers and the system functions, and nothing else, are predefined |
| Layout.SystemExact | assembler/label.cpp:41-47 | the seven system functions have the numbers the interpreter's switch knows them by |
| Layout.UnreachableLabels | assembler/assembler.cpp:137-194 | labels `f` and `-x` can be defined and no argument refers to them |
| Layout.CountIsSize | assembler/assembler.cpp:467-569 | the second pass counts as many bytes as it writes exactly when the data bytes add up to 0 modulo 2^32; below 4 GiB, when there are none |
| Layout.LinesOnlyAdd | assembler/label.cpp:51-63 | a registered label never changes, the working text only grows, an error is never forgotten |
| Layout.AddressIsSize | assembler/assembler.cpp:437-464 | the running address is the size of the working text so far |
| Assembler.LabelDictionary.constructor | assembler/label.cpp:32-49 | 32 registers and 7 system functions are defined from the start |
| Assembler.LabelDictionary.RegisterLabel | assembler/label.cpp:51-63 | a new name gets the address, a known one is refused and keeps its own |
| Assembler.LabelDictionary.ResolveLabel | assembler/label.cpp:64-74 | the recorded address or nothing; only the reference count changes |
| Assembler.Assembler.constructor | assembler/assembler.cpp:40-47 | a fresh dictionary of predefined labels |
| Assembler.Assembler.FirstPassReadLine | assembler/assembler.cpp:312-465 | one line's effect on address, labels, working text, data start and error flag |
| Assembler.Assembler.EvaluateArgument | assembler/assembler.cpp:131-230 | a number's value, or the address of an argument that reads as a label; an undefined label is an error |
| Assembler.Assembler.AssembleLine | assembler/assembler.cpp:467-569 | an instruction's bytes with its resolved argument, or a string's bytes, are appended |
| Assembler.Assembler.SecondPass | assembler/assembler.cpp:602-607 | the whole image is written in order, with an error exactly when some label is undefined |
| Assembler.Assembler.Assemble | assembler/assembler.cpp:573-620 | the output is the header and the image; the result is 0 after an error and otherwise counts instruction bytes only |
| Assembler.FailsExact | assembler/assembler.cpp:573-620 | assembling fails exactly when a line repeats a label or has the wrong number of arguments, or refers to a name that nothing defines |
| Simulation.StepCorresponds | vm/stack_impl.h:46-58 | one turn of the interpreter on the bytes corresponds to one step of the labelled program, `instrPtr` being the address of the current instruction |
| Simulation.ExecuteCorresponds | vm/stack_impl.h:62-430 | loads, stores, arithmetic, comparisons, system calls and returns act alike on cells that hold return points and cells that hold addresses |
| Simulation.ControlCorresponds | vm/shared_impl.h:40-48 | jumps, branches and calls act alike when the address is that of the label's instruction |
| Simulation.RunCorresponds | vm/stack_impl.h:46-556 | runs of any length correspond as long as the labelled run does not compute with a return point, forge one, or jump to a computed address |
| Executable.HeaderReads | vm/vm.c:285-323 | loading the written file gives the image and the data start of the header, with the mode and the two heap sizes where the loader looks for them |
| Executable.LabelPlace | assembler/assembler.cpp:318-323 | a label's address and the number of the instruction it stands before are the same place |
| Executable.InstructionHolds | assembler/assembler.cpp:467-569 | every instruction lies at its address with an operand that names its label's place |
| Executable.DataHolds | assembler/assembler.cpp:506-511 | every string's text, and a terminator where there is room, lies at its place in the image |
| Executable.LabelledData | assembler/assembler.cpp:506-511 | the loaded file has the text of every labelled string at its label's address |
| Executable.AssembledRuns | assembler/assembler.cpp:573-620 | the file assembled from an error-free program whose arguments are numbers or read as labels, loaded and run by either decoder, does what the labelled program does for any number of steps |
| Executable.SmallProgram | assembler/assembler.cpp:573-620 | a program of a jump, an exit and a data marker meets every condition, follows its label and ends with 0 |
| LabelMachine.ExecuteConfused | vm/stack_impl.h:62-430 | the labelled machine gives up only when an instruction computes with a return point, returns through links that are none, or jumps to a computed address |
| LabelMachine.JumpConfused | vm/stack_impl.h:404-408 | a jump does only when its operand is no label of the program or a branch looks at a return point |
| LabelMachine.PlainConfused | vm/stack_impl.h:62-430 | any other instruction also when its operand is a name that is not predefined |
| StackCells.SplitsBack | vm/stack_impl.h:76-78 | the value read from two cells is the one whose halves were put there |
| StackCells.InvertsExact | vm/stack_impl.h:232-234 | INV.64 complements its operand exactly when the high cell is the sign extension of the low one |
| Agreement.OpcodesMean | vm/stack_impl.h:162-442 | the case the dispatch takes for a mnemonic's opcode computes what the mnemonic says, in its 32-bit and 64-bit form |
| Agreement.ComputeAgrees | vm/stack_impl.h:157-302 | arithmetic, comparisons, logic, negation and conversions take the same operands in the same order and leave the same cells as on the generator's machine, and trap where it does |
| Agreement.LiteralAgrees | vm/stack_impl.h:72-78 | LDI and LDI.64 push the cells of the literal's value |
| Agreement.BranchAgrees | vm/stack_impl.h:404-405 | BRZ pops alike on the generator's machine and jumps there exactly when the interpreter does |
| Vm.BuildsAgree | vm/vm.c:211-227 | for every program and state the union build and the bitmask build go through the same runs |
| Vm.ExecuteKeeps | vm/stack_impl.h:50-553 | no instruction but a return raises `sp` by more than two cells, and none lifts it above STACK_SIZE + 1 |
| Vm.HeightIsBounded | vm/stack_impl.h:552-553 | in every reachable state in which another step begins, `sp` is below STACK_SIZE and every cell holds 32 bits |
| Vm.InitialIsSound | vm/vm.c:333-349 | the initial stack meets these bounds |
| Frames.FollowIsRun | vm/stack_impl.h:46-556 | following a nesting of calls is running the machine for that many steps |
| Frames.BodyKeeps | vm/shared_impl.h:42-72 | a body whose stores miss its link cells ends in its own frame with links and everything below its arguments unchanged, whatever it calls |
| Frames.StoredIsLoaded | vm/stack_impl.h:118-152 | what STL or STA stores is what LDL or LDA of the same offset pushes, with `sp` and frame back where they were |
| Frames.SmallestCallReturns | vm/shared_impl.h:42-55 | a program of a CALL and a RET meets the conditions of the call theorems |
| Frames.PoliteExact | vm/stack_impl.h:136-152 | the condition on a body's stores and operands is exactly that no cell they write is a link or lies below the arguments |
| Frames.CallReturns | vm/shared_impl.h:42-72 | at any nesting depth a call that returns continues 5 bytes on in the caller's frame, `sp` lowered by the arguments and raised by the result, the result being the callee's topmost cells and nothing below changed |
| Interpreter.StackInterpreter.AllocateStack | vm/vm.c:333-349 | the initial state over whatever the fresh memory holds |
| Interpreter.StackInterpreter.SHARED_CALL | vm/shared_impl.h:42-48 | the links of the new frame are written and control goes to the callee |
| Interpreter.StackInterpreter.SHARED_RET | vm/shared_impl.h:50-72 | RET, RET.32 and RET.64: the caller's state with the result in place of the arguments |
| Interpreter.StackInterpreter.SHARED_SCALL | vm/shared_impl.h:74-88 | system calls: print pops its arguments, the collected sizes are dropped |
| Interpreter.StackInterpreter.LoadCells | vm/stack_impl.h:118-134 | LDL and LDA push the cells of a local or an argument |
| Interpreter.StackInterpreter.StoreCells | vm/stack_impl.h:136-152 | STL and STA pop cells into a local or an argument |
| Interpreter.StackInterpreter.StackOp | vm/stack_impl.h:157-302 | the operands are popped and the result pushed, or a division traps |
| Interpreter.StackInterpreter.Dispatch | vm/stack_impl.h:50-550 | one case of the dispatch is one execution of the operation |
| Interpreter.StackInterpreter.Turn | vm/stack_impl.h:46-553 | guard, fetch, dispatch and overflow check are one step |
| Interpreter.StackInterpreter.StackInterpreterLoop | vm/stack_impl.h:33-556 | the loop is a run of that many steps |
| SysPrint.SysPrint | vm/shared_impl.h:108-187 | the backward walk reads consecutive values of the tagged widths that fill exactly the top cells, and lowers the stack as the switch does |
| SysPrint.PushedIsUnique | vm/shared_impl.h:119-148 | values of given widths are determined by the cells they fill, so each argument is read as it was pushed |
| SysPrint.HeightRestored | vm/shared_impl.h:150-186 | with two or more arguments the height before them is restored exactly when size nibbles and type bits add up alike, and so whenever each pair matches |
| SysPrint.SingleArgument | vm/shared_impl.h:152-154 | a print of a single argument restores the height exactly when its type is one cell wide, whatever its size tag says |
| HeapMemory.RoundUpExact | vm/vm_memory.c:88-89 | the rounding is the least multiple of 24 not below the request exactly up to 0xFFFFFFF0; the 15 larger requests wrap to 8 |
| HeapBlocks.TilesUnique | vm/vm_memory.c:94-100 | following `next` from offset 0 visits one determined list of blocks |
| HeapBlocks.FreshIsWellFormed | vm/vm_memory.c:55-71 | a new heap is one free block |
| HeapBlocks.ClaimSplits | vm/vm_memory.c:113-129 | a claim that leaves room for another header splits its block, and no live payload changes |
| HeapUpdates.ExactFitBreaks | vm/vm_memory.c:113-127 | a claim that fits exactly leaves a buffer that no list of blocks tiles |
| HeapUpdates.ReleaseStores | vm/vm_memory.c:208-220 | the stores of a free, as one change of at most three words |
| HeapFree.ReleaseExact | vm/vm_memory.c:208-220 | freeing a live block leaves the others alone exactly when joining through its `prev` is harmless |
| HeapRealloc.ResizeStores | vm/vm_memory.c:148-173 | resizing in place never writes the new header over the successor's header while that is still to be read |
| HeapRealloc.ResizedSafe | vm/vm_memory.c:148-173 | resizing in place keeps every other live block when the skipped successor is not live |
| HeapRealloc.ResizedUnsafe | vm/vm_memory.c:148-158 | and loses the successor when it is |
| HeapCalls.SearchExact | vm/vm_memory.c:93-100 | over the blocks of the heap: the search finds the lowest one that is free and as large as asked for, and runs past the end exactly when there is none |
| HeapCalls.AllocExact | vm/vm_memory.c:83-130 | an allocation gives a fresh block of at least the size and keeps all others exactly when the lowest free block that is large enough leaves room for a header and the rounding does not wrap, told over the blocks too |
| HeapCalls.FreshAllocExact | vm/vm_memory.c:83-130 | a new heap of any size serves a request, at address 24, exactly when it and two headers fit |
| HeapCalls.FreeExact | vm/vm_memory.c:191-221 | a free keeps all other live blocks exactly under the condition on `prev` |
| HeapMoves.StoreKeeps | vm/vm_memory.c:183 | stores inside one payload change no header and no other payload |
| HeapMoves.ResizeExact | vm/vm_memory.c:148-173 | resizing in place keeps the contents up to the new size exactly when the successor is not live |
| HeapMoves.MoveExact | vm/vm_memory.c:174-186 | moving keeps the contents, and the others exactly when the free at its end does |
| HeapRoom.RoomExact | vm/vm_memory.c:174-186 | when the block a realloc moves to leaves room for a header, the free of the old block is harmless exactly under a condition on the old block's `prev`, told from the heap before the call |
| HeapExactFit.ExactFitExact | vm/vm_memory.c:174-186 | when that block fits exactly, the move keeps its promise exactly when the old block's `prev` is the free header behind the new block and no live block lies between the two |
| HeapReallocs.ReallocExact | vm/vm_memory.c:132-189 | a realloc keeps the first min(old, new) words of its block and all other live blocks exactly when its path is safe, whichever path it takes; which one that is, and when it is safe, is told over the blocks too |
| HeapReallocs.ReallocWrapped | vm/vm_memory.c:140-141 | a request so large that the sizes wrap leaves a block of a single word |
| HeapRuns.ServeKeepsPromise | vm/vm_memory.c:83-221 | each call that meets its condition changes the map from blocks to contents only at its own entry |
| HeapRuns.AllowedExact | vm/vm_memory.c:83-221 | a request is allowed exactly when it would succeed: nothing that succeeds is left out of the runs |
| HeapRuns.RunRefines | vm/vm_memory.c:83-221 | every run of such calls refines the run on the map |
| HeapRuns.RunIsSafe | vm/vm_memory.c:55-221 | from a new heap, after any such run the blocks tile the heap and live payloads are disjoint from each other and from all headers |
| HeapRuns.LiveIsSeparate | vm/vm_memory.c:55-221 | that is what the invariant means for the bytes |
| HeapFaults.FreeLosesLiveBlock | vm/vm_memory.c:208-216 | six ordinary requests after which a free swallows a live block |
| HeapFaults.AllocLosesTail | vm/vm_memory.c:113-127 | three ordinary requests after which an allocation leaves a heap that nothing tiles and that no later search gets through |
| HeapFaults.ShrinkLosesLiveBlock | vm/vm_memory.c:148-158 | two allocations after which shrinking the first drops the second |
| HeapFaults.ExactFitMoves | vm/vm_memory.c:174-186 | seven ordinary requests after which a realloc moves into a block that fits exactly and is safe |
| Heap.VMHeap.AllocateHeap | vm/vm_memory.c:55-71 | the buffer of a new heap |
| Heap.VMHeap.Search | vm/vm_memory.c:93-100 | the pointer walk finds what first fit says |
| Heap.VMHeap.VMHeapAlloc | vm/vm_memory.c:83-130 | the buffer and address after an allocation |
| Heap.VMHeap.Claim | vm/vm_memory.c:113-129 | the stores that take a block and write a header behind it |
| Heap.VMHeap.VMHeapFree | vm/vm_memory.c:191-221 | the buffer after a free |
| Heap.VMHeap.Resize | vm/vm_memory.c:150-155 | the stores of resizing in place |
| Heap.VMHeap.CopyWords | vm/vm_memory.c:183 | the copied payload |
| Heap.VMHeap.Relocate | vm/vm_memory.c:174-186 | allocate, copy and free |
| Heap.VMHeap.VMHeapRealloc | vm/vm_memory.c:132-189 | the buffer and address after a realloc, by path |
| Heap.VMHeap.VMGetHeapAllocSize | vm/vm_memory.c:276-280 | for a live block of a well-formed heap the bytes of its payload and its header, modulo 2^32; in any heap the distance to the next header |
| HeapCalls.SizeAfterAlloc | vm/vm_memory.c:276-280 | after an allocation that succeeds that is the rounded request plus the header |

## Left out

- HeapCalls.AllocExact: a search that ends without a fitting block is not given a meaning, as the original writes outside the heap there.
- Naming.CompiledFunctionCorrect: asks that the body is consistent, as a body that is not finds operands of another width than its instructions work on (CodeShape.StmtsShape); Returns.ComparisonStored shows what becomes of one.
- Programs.Generate: literals in range of their types, which the scanner sees to, and locals that have not been written.
- SysPrint.SysPrint: the printed text; only which cells are read and popped.
- Interpreter.StackInterpreter.StackInterpreterLoop: takes a bound on the number of turns, as a program may run forever; the theorems hold for every bound.
- Simulation.RunCorresponds: says nothing once the labelled run computes with a return point, returns through an overwritten link cell, or jumps to a computed address.
- Executable.AssembledRuns: code shorter than 2^31 bytes, since return addresses are kept in signed cells, and files shorter than 2^32 bytes.
- Layout.LayoutAgrees: string data is no longer than its text and terminator; beyond that the original writes bytes it does not own. Numeric `.BYTE` data is written as decimal text and is not modelled.
- Code generated after an error message.
- Character-level parsing, mnemonics outside the stack set, directives other than `.BYTE` and `.DATA`, the formatting of the emitted assembly text, warnings and messages.
- Binary label expressions in arguments, whose upper half is not set in the original; the conversion of numeric text, and what `stoull` makes of text that is no number.
- Floating point, strings, arrays and objects in the compiler, and calls in generated code, which the compiler leaves unfinished; indexed assignment, which it compiles like a plain one.
- Floating point, string and heap instructions of the interpreter: a step that meets one ends the modelled run. System calls other than the print walk.
- The register code generator and the register interpreter; their instruction layouts are covered by the encoding round trips.
- Trees rewritten in place by the type checker are modelled as values, as nothing else refers to them.
- Locals that were never written read as 0 in the compiler's machine.
- The heap is a sequence of 8-byte words, a header being three of them; heaps whose size is not a multiple of 8, heap growth and `ResetHeap` are not modelled. Loads and stores outside the buffer, and frees of addresses that hold no header, are undefined outcomes.
- Unaligned variable offsets and reads outside the stack are undefined outcomes.
