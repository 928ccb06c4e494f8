# A model of eEVM

eEVM is an Ethereum Virtual Machine in C++. This project models four connected parts of it and
proves what they are for. All integers are unbounded in Dafny, so every wrap-around of the C++ code
is written out.

**The interpreter.** `State`, `Execution`, `Operations`, `Instructions` and `Processor` hold the
objects the code updates in place: the operand stack, accounts, the world map, contexts, and the
interpreter with its stack of contexts, its handlers and its run loop. `Evm` has the same machine
as a step function on values, where the three closures of a context are data
(`Top`, `CallRet`, `CreateRet`). The class `_Processor` is called `Interpreter` here, since Dafny names cannot start with an underscore.
`Processor.Interpreter.Turn` proves that one turn of the loop on the
objects is one step on the values, exceptions and handlers included, and `Execute` that a run is a
run. Everything about whole runs is therefore proved once, on the values: the invariant of all
reachable states (`EvmInvariant`), calls and their return (`CallResume`), where contexts come from
(`Origins`), created code (`Creation`), how runs begin and end (`RunEnds`), termination without jumps
(`Termination`), the sum of balances (`Balance`), paths between bytes and words (`MemoryPaths`).

What the opcodes mean is also said without the step function's own terms, from the words on the stack
and the outcome of the instruction: `WordOpcodes` for arithmetic, comparison and bits,
`ContextOpcodes` for stack, context, storage and memory, `Jumps`, and `CallEntry` for calls,
creations and payments, with every condition under which they throw, in the order of the code.

**128-bit arithmetic.** `UInt128`, `Reciprocal` and `Division` follow int128.hpp line by line:
reciprocals from a table and wrapping refinements, division steps with at most two corrections,
normalization and its reversal. `NumberText` has printing and parsing.

**RLP.** `Rlp` is the format as this encoder and decoder have it, `RlpCode` the loops and the moving
data position, `RlpRoundTrip` the theorems on one argument, `RlpPacks` those on several, `RlpForm`
what encodings look like and what decoding accepts.

**Two readings of byte code.** `Bytecode` defines instruction boundaries, `Disassembler` the second
reader with its comments on jumps, `JumpNames` these comments against whole runs, `Samples` the two
code generators and what their programs return, `SampleRuns` both samples end to end on the objects.

What the code does in places where one might expect something else (`Oddities` has most of the exact
conditions):

- The outermost context is dispatched once before its first step, so a run that goes on after its
  first turn dispatches its first instruction again exactly when that is not a PUSH
  (src/processor.cpp:76, 207-222; `Oddities.FirstTwice`).
- DUP has no size test and PUSH refuses at exactly 1024 words, so stacks can grow past 1024, by a DUP
  on a full stack and in no other way (src/stack.cpp:43, 75-83; `Oddities.PastLimit`, `StackGrows`).
- An exception thrown by a handler inside the catch block, a handler that throws after the loop, and
  the `std::overflow_error` of CALLDATALOAD leave `run`; the model calls this status `Escaped`, and
  it keeps the world. `Oddities.EscapesExactly` says when a turn does this; `LoadEscapes` and
  `HandlerEscapes` are runs that get there.
- CALLDATALOAD therefore does not agree with CALLDATACOPY and MLOAD for offsets from 2^64 - 32 on
  (`MemoryPaths.LoadEqualsCopyThenLoad`).
- A self-payment mints its amount, and CREATE credits the endowment twice when the address is fresh:
  once as the initial balance, once by the payment (src/processor.cpp:1239-1243).
  `Balance.Conservation` says exactly when the sum is kept, and `Oddities.SelfdestructMints` has a
  run from the start that mints.
- The nonce of an account is never counted up (src/processor.cpp:1234-1237), so all creations by one
  account in one run go to the same address and the later code replaces the earlier
  (`Creation.CreationsCollide`, `CreationStores`).
- A nested context that runs off its code ends the whole run with a default result
  (src/processor.cpp:224-226).
- BYTE with an index of 32 or more pops one operand (src/processor.cpp:936-941).
- Changes of the world stay when a context throws (src/processor.cpp:213-217).
- The decimal overflow test of `from_string` misses overflows: `NumberText.OverflowCaught` says exactly
  which it sees, and `MissedOverflow` has one it does not.
- Several arguments of `encode` with a tuple among them are not read back as they were written: the
  header of such a tuple is never read, so every tuple is read one header late. What follows the first
  tuple fails as soon as it holds a value; tuples of tuples without any value may come back, and then
  leave bytes unread. `RlpPacks.PackRoundTrip` says when input and values both come out right,
  `PackValues` when the values alone do, `LastTuple` what that means for one tuple at the end;
  `TuplePackFails` and `EmptyTupleUnread` are one input of each kind.
- The overflow test of SDIV compares with the literal -1, an `int` that converts to the word 2^64 - 1
  (3rdparty/intx/include/intx/intx.hpp:42-46, 175-180, int128.hpp:40-43). So SDIV is wrong for the
  smallest number divided by 2^64 - 1, and for nothing else (`Alu.SDivTruncates`).
- The disassembler cuts a jump target to 64 bits, the interpreter throws for longer ones:
  `JumpNames.JumpsGoWhereNamed` has the exact condition, `NamedButThrows` an input.

## Model

| member | source | states |
|---|---|---|
| UInt128.Add | 3rdparty/intx/include/intx/int128.hpp:75-81 | adding word by word with the carry read off the wrapped low word gives the sum modulo 2^128 |
| UInt128.Sub | 3rdparty/intx/include/intx/int128.hpp:88-94 | subtracting word by word with the borrow gives the difference modulo 2^128 |
| UInt128.Neg | 3rdparty/intx/include/intx/int128.hpp:96-102 | `-x` is 0 for 0 and 2^128 - x otherwise |
| UInt128.Lt | 3rdparty/intx/include/intx/int128.hpp:167-173 | the comparison of two words each is the order of the 128-bit values |
| UInt128.Ge | 3rdparty/intx/include/intx/int128.hpp:188-191 | `>=` on word pairs is the order of the values |
| UInt128.ShlWords | 3rdparty/intx/include/intx/int128.hpp:633-639 | the three words that normalization computes are the two-word value times 2^s; nothing is lost |
| UInt128.ShiftRight | 3rdparty/intx/include/intx/int128.hpp:240-250 | `x >> s` is division by 2^s for every s, the split double shift included |
| UInt128.ConstexprUmul | 3rdparty/intx/include/intx/int128.hpp:266-285 | four 32-bit products and their carries give the exact 128-bit product |
| UInt128.ConstexprUmulIsUmul | 3rdparty/intx/include/intx/int128.hpp:266-303 | the portable multiplication and the one through the compiler integer agree in both words |
| Words.Low32IsAnd | 3rdparty/intx/include/intx/int128.hpp:269-272 | the low half is the bitwise and with 32 ones |
| Words.High32IsShr | 3rdparty/intx/include/intx/int128.hpp:269-272 | the high half is the right shift by 32 |
| Words.JoinIsOr | 3rdparty/intx/include/intx/int128.hpp:282 | or-ing a shifted word with a word below the shift is adding it |
| Reciprocal.MaskIsAnd | 3rdparty/intx/include/intx/int128.hpp:492-493 | masking by a negated parity bit is bitwise and |
| Reciprocal.Reciprocal2by1 | 3rdparty/intx/include/intx/int128.hpp:477-506 | for every d >= 2^63, table look-up, three wrapping refinements and the final correction give exactly floor((2^128-1)/d) - 2^64 |
| Division.Reciprocal3by2 | 3rdparty/intx/include/intx/int128.hpp:508-534 | for every 128-bit d with its top bit set, exactly floor((2^192-1)/d) - 2^64, whichever corrections fire |
| Division.HighCorrection | 3rdparty/intx/include/intx/int128.hpp:510-522 | after the corrections for the low word of d, p is the exact remainder term of the candidate, in range |
| Division.Udivrem2by1 | 3rdparty/intx/include/intx/int128.hpp:536-558 | with the exact reciprocal and u.hi < d, quotient and remainder of two words by one, after at most two corrections |
| Division.Estimate3by2 | 3rdparty/intx/include/intx/int128.hpp:563-573 | the estimate is at most one too large or one too small, and comparing one word tells which |
| Division.Udivrem3by2 | 3rdparty/intx/include/intx/int128.hpp:560-588 | quotient and remainder of three words by two, with the remainder below the divisor |
| Division.ClzGeneric | 3rdparty/intx/include/intx/int128.hpp:384-398 | the number of leading zeros: 64 for 0, otherwise the r with 2^(63-r) <= x < 2^(64-r) |
| Division.UdivremByWord | 3rdparty/intx/include/intx/int128.hpp:592-621 | a one-word divisor: normalize, two chained 2-by-1 steps, shift the remainder back; exact |
| Division.UdivremByPair | 3rdparty/intx/include/intx/int128.hpp:626-644 | a two-word divisor: normalize, one 3-by-2 step, shift back; exact |
| Division.Udivrem | 3rdparty/intx/include/intx/int128.hpp:590-645 | for every x and every y != 0, on every path, quot * y + rem == x and rem < y |
| Division.Sdivrem | 3rdparty/intx/include/intx/int128.hpp:647-661 | signed division truncates toward zero and the remainder takes the sign of x; only minimum / -1 wraps |
| Signed.TruncUnique | 3rdparty/intx/include/intx/int128.hpp:647-661 | quotient and remainder of truncated division are determined by x == q*y + r, |r| < |y| and the sign of r |
| NumberText.Digits10Formula | 3rdparty/intx/include/intx/int128.hpp:709 | the digit counts used for the three widths are the truncated product of the code |
| NumberText.ToString | 3rdparty/intx/include/intx/int128.hpp:790-811 | prints exactly the positional digits, most significant first; a base outside 2 to 36 is an error |
| NumberText.PrintedValue | 3rdparty/intx/include/intx/int128.hpp:790-811 | in every base from 2 to 36 the printed characters are digits of the base, stand for the number, and have no leading zero |
| NumberText.DivideByBase | 3rdparty/intx/include/intx/int128.hpp:800-808 | each turn of the printing loop splits off the last digit |
| NumberText.FromString | 3rdparty/intx/include/intx/int128.hpp:748-777 | parses decimal and 0x-prefixed text with the guards of the code, in their order |
| NumberText.DecimalParsing | 3rdparty/intx/include/intx/int128.hpp:766-776 | decimal digits parse to their value exactly when there are at most digits10 + 1 of them and the value is below 2^width |
| NumberText.DecimalRoundTrip | 3rdparty/intx/include/intx/int128.hpp:766-811 | parsing the decimal print of x gives x, for 128, 256 and 512 bits; no guard fires |
| NumberText.DecimalOutcome | 3rdparty/intx/include/intx/int128.hpp:766-776 | what parsing any decimal digits gives: an overflow error, or the value modulo 2^width |
| NumberText.OverflowCaught | 3rdparty/intx/include/intx/int128.hpp:771-774 | within the digit count, an overflow is reported if and only if the wrapped value is below the last digit; otherwise a wrong number comes out |
| NumberText.MissedOverflow | 3rdparty/intx/include/intx/int128.hpp:771-774 | one such input: the digits of 2^128 + 10 parse as 10 at 128 bits |
| NumberText.DecimalStops | 3rdparty/intx/include/intx/int128.hpp:766-777 | a character that is no digit is refused where it stands, and a NUL ends the number |
| NumberText.CaseDoesNotMatter | 3rdparty/intx/include/intx/int128.hpp:739-746 | capital and small hexadecimal letters parse alike, in any text |
| NumberText.HexRefused | 3rdparty/intx/include/intx/int128.hpp:754-765 | one hexadecimal digit too many is an overflow, and a character that is no digit is refused |
| NumberText.HexRoundTrip | 3rdparty/intx/include/intx/int128.hpp:754-811 | parsing "0x" and the hexadecimal print of x gives x, at every width |
| Bytecode.ComputeJumpDests | src/processor.cpp:51-66 | the loop computes D_J of section 9.4.3 of the Ethereum Yellow Paper |
| Bytecode.DestinationsAreJumpdests | src/processor.cpp:51-66 | D_J has exactly the positions where a JUMPDEST instruction starts, none inside an immediate |
| Bytecode.NextStarts | src/processor.cpp:56-60 | after an instruction start comes an instruction start, unless the code ends or is cut |
| Bytecode.NoStartInImmediate | src/processor.cpp:56-60 | no instruction starts inside the immediate bytes of another |
| Alu.GetSign | src/processor.cpp:33-36 | -1 exactly for words that read as negative |
| Alu.ComputeSDiv | src/processor.cpp:728-753 | the sign juggling of the general branch gives the wrapped truncated quotient; the overflow shortcut compares with the converted literal |
| Alu.SDivTruncates | src/processor.cpp:728-753 | for y != 0, SDIV is wrapped truncated two's-complement division if and only if the operands are not -2^255 and 2^64 - 1, for which the dividend comes back |
| Alu.ComputeSMod | src/processor.cpp:765-785 | the code of SMOD computes the encoded truncated remainder |
| Alu.SModTruncates | src/processor.cpp:765-785 | x == q*m + r, |r| < |m|, and r has the sign of x |
| Alu.ComputeSlt | src/processor.cpp:857-880 | SLT is the order of the signed readings |
| Alu.ComputeSignExtend | src/processor.cpp:826-841 | shifts and masks of the code give the sign extension |
| Alu.SignExtendUnique | src/processor.cpp:826-841 | the result is the one word in the signed range of 8(x+1) bits that agrees with y on those bits |
| Util.FromBigEndian | include/eEVM/util.h:21-41 | up to 32 bytes are read as a big-endian number through the zero-padded buffer; more is an error |
| Util.ToBigEndian | include/eEVM/util.h:43-49 | the buffer holds the 32 big-endian bytes of the word |
| State.Stack.Pop | src/stack.cpp:18-28 | takes the top word off, or throws on an empty stack |
| State.Stack.Pop64 | src/stack.cpp:30-39 | a word of 2^64 or more throws and is popped all the same |
| State.Stack.Push | src/stack.cpp:41-57 | throws at exactly 1024 words and otherwise adds on top |
| State.Stack.Swap | src/stack.cpp:64-73 | exchanges the top with word i and keeps all others, or throws |
| State.Stack.Dup | src/stack.cpp:75-83 | copies word a on top, without a size check, or throws |
| State.SimpleAccount.PayTo | include/eEVM/account.h:32-59 | funds and overflow tests in order; debit and credit; an account that pays itself gains the amount; throwing changes nothing |
| State.SimpleGlobalState.Remove | src/simple/simpleglobalstate.cpp:8-11 | erases one entry and nothing else |
| State.SimpleGlobalState.Get | src/simple/simpleglobalstate.cpp:13-20 | the account at the address, an empty one being created for an unknown address; all others kept |
| State.SimpleGlobalState.Create | src/simple/simpleglobalstate.cpp:22-28 | a new account with balance and code at a free address; an existing account stays as it is |
| State.SimpleGlobalState.Insert | src/simple/simpleglobalstate.cpp:50-55 | adds the entry at a free address; one that is already there stays; the result says which, as the code asserts it |
| State.Pay | include/eEVM/account.h:32-59 | a payment between accounts of the world is the payment on the map of account values |
| Execution.Context.constructor | src/processor.cpp:99-118 | a context starts at counter 0 marked as changed, with empty stack and memory and its jump destinations computed |
| Execution.Context.Step | src/processor.cpp:120-127 | clears the mark or increments the counter |
| Execution.Context.PrepareMemAccess | src/processor.cpp:344-361 | with 64-bit sums: grows the memory by zeros to cover the range, or throws beyond 2^25 and leaves it |
| Execution.Context.CopyFromMem | src/processor.cpp:363-367 | the slice of the grown memory |
| Execution.Context.JumpTo | src/processor.cpp:369-376 | sets the counter exactly for valid destinations and throws otherwise |
| Execution.CopyMemRaw | src/processor.cpp:289-332 | with 64-bit sums that may wrap: writes the window of the source, padded, into the grown destination, or throws |
| MemoryPaths.CopyMemWrites | src/processor.cpp:289-332 | a copy succeeds exactly when it is empty or ends within 2^25; then every byte of the window is source or padding, every other old byte is kept and growth is zero |
| MemoryPaths.LoadEqualsCopyThenLoad | src/processor.cpp:1035-1066 | CALLDATACOPY of 32 bytes and then MLOAD give the padded word of the input at every offset; CALLDATALOAD gives the same word if and only if the offset is below 2^64 - 32, and leaves `run` otherwise |
| MemoryPaths.StoreThenLoad | src/processor.cpp:974-988 | MLOAD after MSTORE returns the stored word, and all other bytes keep their values |
| Operations.ComputeBinary | src/processor.cpp:693-926 | the value each two-operand opcode pushes |
| Operations.PowerBySquaring | 3rdparty/intx/include/intx/intx.hpp:677-689 | squaring the base for every bit of the exponent, with every product wrapped, gives the power modulo 2^256 |
| Operations.Sgt | src/processor.cpp:882-886 | swapping and running SLT is the reversed signed order; too few operands throw |
| Operations.Modular | src/processor.cpp:787-817 | ADDMOD and MULMOD without wrap-around, 0 for modulus 0 |
| Operations.ByteOp | src/processor.cpp:934-946 | pushes byte idx of the second operand; an index of 32 or more pops one operand only |
| Operations.ByteByMask | src/processor.cpp:942-945 | masking and shifting down picks the digit of the big-endian form |
| Operations.PopAddr | src/processor.cpp:274-278 | the mask keeps the operand modulo 2^160 |
| Operations.StackOperation | src/processor.cpp:402-656 | every stack opcode leaves the stack the step function says, or throws the same error |
| Operations.Read | src/processor.cpp:1030-1182 | every opcode that pushes something read leaves the stack the step function says |
| Operations.LoadInput | src/processor.cpp:1041-1054 | the shift loop with its early exit reads the zero-padded 32-byte window |
| Instructions.PushImmediate | src/processor.cpp:1094-1118 | PUSH throws for a truncated immediate, else pushes its number and sets the counter behind it |
| Instructions.Immediate | src/processor.cpp:1111-1114 | shifting and or-ing byte by byte gives the big-endian number |
| Instructions.Jump | src/processor.cpp:948-952 | pops a 64-bit target and jumps or throws |
| Instructions.JumpIf | src/processor.cpp:954-960 | pops target and condition and jumps only for a nonzero condition |
| Instructions.MLoad | src/processor.cpp:974-980 | grows the memory and pushes the word at the offset |
| Instructions.MStore | src/processor.cpp:982-988 | grows the memory and writes the 32 bytes of the word |
| Instructions.MStore8 | src/processor.cpp:990-996 | grows the memory and writes the low byte |
| Instructions.CopyMemory | src/processor.cpp:334-342 | three operands in order, then the copy |
| Instructions.Log | src/processor.cpp:1125-1137 | operands and topics are popped before the memory is read; the entry handed on has the account, the bytes of the range and the topics in order |
| Instructions.PopCall | src/processor.cpp:1268-1274 | the operands of the three calls, in order, with the first error |
| Instructions.LocalOperation | src/processor.cpp:396-678 | every opcode that stays within its context does what the step function says |
| WordOpcodes.Addition | src/processor.cpp:693-698 | ADD gives the sum, less 2^256 if it passes the largest word |
| WordOpcodes.Subtraction | src/processor.cpp:700-705 | SUB gives the word that added to the second operand gives the first, modulo 2^256 |
| WordOpcodes.Multiplication | src/processor.cpp:707-712 | MUL gives what whole multiples of 2^256 leave of the exact product |
| WordOpcodes.DivisionWithRemainder | src/processor.cpp:714-763 | DIV and MOD on the same operands are quotient and remainder below the divisor; both give 0 for the divisor 0 |
| WordOpcodes.SignedDivision | src/processor.cpp:728-785 | SDIV and SMOD on the same operands truncate toward zero, the remainder signed like the dividend, except for SDIV of -2^255 by 2^64 - 1 |
| WordOpcodes.ModularArithmetic | src/processor.cpp:787-817 | ADDMOD and MULMOD give the remainder of the exact sum and product, 0 for modulus 0 |
| WordOpcodes.Powers | src/processor.cpp:819-824 | EXP throws for an exponent of 2^64 or more and otherwise gives the power modulo 2^256 |
| WordOpcodes.SignExtension | src/processor.cpp:826-841 | SIGNEXTEND gives the word in the signed range of so many bytes that agrees with the operand on them; from byte 32 on, the operand |
| WordOpcodes.Comparisons | src/processor.cpp:843-896 | on the same operands exactly one of LT, GT, EQ gives 1, LT by the order of the words, and GT is LT with the operands exchanged |
| WordOpcodes.SignedComparisons | src/processor.cpp:857-886 | SLT goes by the signed order, SGT is SLT with the operands exchanged, and neither holds of equal words only |
| WordOpcodes.IsZero | src/processor.cpp:898-905 | ISZERO is EQ with 0 |
| WordOpcodes.BitwiseAnd | src/processor.cpp:907-912 | every binary digit of the result is 1 exactly if both digits are |
| WordOpcodes.BitwiseOr | src/processor.cpp:914-919 | every binary digit of the result is 1 exactly if one of the digits is |
| WordOpcodes.BitwiseXor | src/processor.cpp:921-926 | every binary digit of the result is 1 exactly if the digits differ |
| WordOpcodes.Complement | src/processor.cpp:928-932 | NOT is XOR with all ones; operand and result add up to 2^256 - 1 |
| WordOpcodes.ByteOfWord | src/processor.cpp:934-946 | BYTE gives the digit of the place counted from the most significant byte; from 32 on it gives 0 and leaves the second operand |
| Words.Digit | include/eEVM/util.h:43-49 | byte i of the big-endian form is the base-256 digit of its place |
| ContextOpcodes.TooFewOperands | src/processor.cpp:396-678 | every opcode without its operands throws out-of-bounds and leaves the world alone, but for the account EXTCODECOPY has asked for |
| ContextOpcodes.ImmediateWord | src/processor.cpp:1094-1118 | PUSHk takes the number of the k bytes behind it and goes on behind them, or throws for a cut immediate or a full stack |
| ContextOpcodes.StackShuffle | src/processor.cpp:683-691 | POP drops the top, DUPk copies word k, SWAPk exchanges the top with word k + 1 |
| ContextOpcodes.ContextWord | src/processor.cpp:964-972 | PC, MSIZE, CODESIZE, CALLDATASIZE, ADDRESS, CALLER and CALLVALUE push what they name; MSIZE is the least multiple of 32 that covers the memory |
| ContextOpcodes.SurroundingWord | src/processor.cpp:1079-1183 | block and transaction opcodes push what the surroundings answer, BLOCKHASH 0 from 256 on |
| ContextOpcodes.AccountWord | src/processor.cpp:1019-1022 | BALANCE and EXTCODESIZE read the account at the low 160 bits, which is made if it is missing |
| ContextOpcodes.StoredWord | src/processor.cpp:998-1012 | SLOAD after SSTORE gives the stored word, zero included; other keys, other accounts and the rest of the account are as before |
| ContextOpcodes.UnsetWord | src/processor.cpp:998-1002 | a key that was never stored reads as 0 |
| ContextOpcodes.LoadedWord | src/processor.cpp:974-980 | MLOAD reads 32 bytes of the grown memory, most significant first, or throws beyond 2^25 |
| ContextOpcodes.StoredBytes | src/processor.cpp:982-996 | MSTORE writes the 32 bytes of the word and MSTORE8 its lowest, and no other byte changes |
| ContextOpcodes.CopiedBytes | src/processor.cpp:334-342 | CALLDATACOPY, CODECOPY and EXTCODECOPY copy from the input, the running code and the other account, with zeros past the end |
| ContextOpcodes.InputBytes | src/processor.cpp:1035-1056 | every byte of the word CALLDATALOAD pushes is the byte of the input, or 0 past its end |
| ContextOpcodes.HashedBytes | src/processor.cpp:1185-1194 | SHA3 hashes exactly the range of the grown memory |
| ContextOpcodes.LoggedBytes | src/processor.cpp:1125-1137 | LOGk drops its operands and grows the memory over the range |
| ContextOpcodes.ReturnedBytes | src/processor.cpp:1196-1204 | RETURN gives out exactly the range of the grown memory, from any offset |
| ContextOpcodes.Stopped | src/processor.cpp:1206-1214 | STOP halts without an effect on the world |
| ContextOpcodes.NoOperation | src/processor.cpp:655-677 | JUMPDEST does nothing, an unassigned opcode throws |
| Jumps.JumpLaw | src/processor.cpp:948-952 | JUMP goes to its operand exactly if a JUMPDEST instruction starts there |
| Jumps.JumpIfLaw | src/processor.cpp:954-960 | JUMPI with condition zero drops its operands and stays, whatever the target; otherwise it is JUMP |
| Jumps.JumpIfSteps | src/processor.cpp:954-960 | after the step the counter is one past the JUMPI, or at the target |
| Jumps.WillJumpExactly | src/processor.cpp:948-960 | opcode, operands and code tell exactly which instructions move the counter as a jump |
| CallEntry.Payment | include/eEVM/account.h:32-59 | a payment is refused exactly for missing funds or an overflowing receiver; else the payer loses and the receiver gains the amount and nothing else changes |
| CallEntry.CallLaw | src/processor.cpp:1265-1342 | everything CALL, CALLCODE and DELEGATECALL come to, from the operand words in the order of the code: who is paid what, when the child is entered, and its account, caller, value, code, input and window |
| CallEntry.CreateLaw | src/processor.cpp:1224-1263 | everything CREATE comes to: the new account, its endowment, and the child that runs the bytes of the range |
| CallEntry.SelfdestructLaw | src/processor.cpp:1216-1222 | the whole balance goes to the recipient, the running account is noted, and the context halts |
| CallEntry.EnteredChild | src/processor.cpp:1224-1342 | every entered child has the account, caller, value, code and input that its parent's operand words name |
| Origins.OriginOf | src/processor.cpp:206-262 | in every state that a run reaches, each nested context was entered by one turn of that run, and still is what the operands of that turn made it |
| Creation.ExecCodes | src/processor.cpp:396-678 | no opcode, throwing or not, changes a code or a nonce |
| Creation.CreationStores | src/processor.cpp:1246-1249 | when the child of a creation returns to a parent with room, exactly the returned bytes become the code of the new account, all else stays, and the parent goes on with the address |
| Creation.CodeStays | src/processor.cpp:206-226 | over any number of turns nonces never change, and a code stays until a creation of its account returns |
| Creation.CreatedCodeRuns | src/processor.cpp:1246-1342 | after a creation, any later call of the address runs the returned bytes, as long as no creation of that address returns again |
| Creation.CreationsCollide | src/processor.cpp:1231-1239 | all creations by one account in one run go to the same address, because nothing counts them |
| RunEnds.Outermost | src/processor.cpp:177-204 | a run starts with one context of the callee, with caller, input, value and code as given, and it stays the outermost to the end |
| RunEnds.LastTurn | src/processor.cpp:185-226 | what the last turn of a run leaves as the result: returned bytes, halted, or the exception; and the two ways a run ends in a nested context |
| RunEnds.OutermostEnds | src/processor.cpp:185-226 | an outermost context that halts, returns, throws or runs off its code ends the run |
| RunEnds.RunResult | src/processor.cpp:183-184 | until the last turn nothing has been written to the result |
| RunEnds.CleanedUp | src/processor.cpp:228-230 | the clean-up removes exactly the noted accounts and keeps all others as they are |
| Termination.TakesJumpExactly | src/processor.cpp:948-960 | the hypothesis of the termination theorems is told from opcode, operands and code, and is exactly that the turn moves the counter as a jump |
| Processor.Interpreter.PushContext | src/processor.cpp:236-262 | refuses at depth 1024, else the new context is on top and all others are as before |
| Processor.Interpreter.PopContext | src/processor.cpp:280-287 | the context below becomes the running one |
| Processor.Interpreter.CallReturn | src/processor.cpp:1296-1300 | the return handler of a call on the parent, and where it throws |
| Processor.Interpreter.CreateReturn | src/processor.cpp:1246-1249 | the return handler of a creation stores the code and pushes the address |
| Processor.Interpreter.Return | src/processor.cpp:1196-1204 | RETURN runs the handler, then pops; a throwing handler leaves the child in place for its exception handler |
| Processor.Interpreter.Stop | src/processor.cpp:1206-1214 | STOP pops first and runs the saved halt handler afterwards |
| Processor.Interpreter.Catch | src/processor.cpp:213-217 | the catch block: exception handler, then pop; an exception of the handler leaves `run` |
| Processor.Interpreter.Selfdestruct | src/processor.cpp:1216-1222 | pays everything to the recipient, notes the account, stops |
| Processor.Interpreter.SStore | src/processor.cpp:1004-1012 | stores a word, or removes the entry for zero |
| Processor.Interpreter.PushAbout | src/processor.cpp:1073-1077 | BALANCE and EXTCODESIZE of an account that is created if unknown |
| Processor.Interpreter.ExtCodeCopy | src/processor.cpp:1024-1028 | copies the code of another account |
| Processor.Interpreter.Create | src/processor.cpp:1224-1263 | CREATE: operands, new account with its endowment, payment, new context or depth error |
| Processor.Interpreter.Call | src/processor.cpp:1265-1342 | the three calls: operands, precompiled addresses, payment, codeless callee, windows, new context or depth error |
| Processor.Interpreter.EnterCallee | src/processor.cpp:1304-1341 | each call opcode fixes caller, account and value of the new context |
| Processor.Interpreter.Dispatch | src/processor.cpp:396-678 | after any opcode, throwing or not, the rest of the loop turn makes the step of the machine |
| Processor.Interpreter.FallOffEnd | src/processor.cpp:224-226 | code that runs out is halted outside the try block and ends the whole run, nested or not |
| Processor.Interpreter.Turn | src/processor.cpp:207-222 | one turn of the loop on the objects is exactly one step of the machine of values |
| Processor.Interpreter.RunFor | src/processor.cpp:206-226 | any number of turns is that number of steps |
| Processor.Interpreter.RemoveDestructed | src/processor.cpp:228-230 | the clean-up erases exactly the self-destructed accounts |
| Processor.Interpreter.Execute | src/processor.cpp:177-233 | a run delivers the result of the machine started on the same world and leaves its cleaned-up world, or, left by an exception, the world it had reached |
| EvmShape.StepTurn | src/processor.cpp:206-222 | every turn goes on in the same context, enters one child, or hands a result to the parent (or, past a parent with a full stack, to its parent) |
| EvmInvariant.StepKeepsInv | src/processor.cpp:206-222 | one turn keeps counters at instruction starts, memories within 2^25, at most 1024 nested contexts, each waiting at its call |
| EvmInvariant.ReachableInv | src/processor.cpp:177-233 | the invariant holds after any number of turns from any call of `run` |
| EvmInvariant.NeverInImmediate | src/processor.cpp:1094-1118 | no counter of any context ever lies inside a PUSH immediate |
| EvmInvariant.ReturnWindowFits | src/processor.cpp:1292-1300 | the copy of a return handler neither throws nor resizes, because the call sized the window |
| EvmInvariant.MemoriesGrow | src/processor.cpp:344-361 | the memory of every surviving context never shrinks and stays within 2^25 |
| EvmInvariant.LineageOf | src/processor.cpp:1265-1341 | each waiting context sits unchanged at a call or creation whose opcode relates it to its child: the caller for all, the account for CALLCODE and DELEGATECALL, the value for DELEGATECALL and CREATE; Origins.OriginOf has the rest |
| EvmInvariant.DelegateChain | src/processor.cpp:1328-1338 | a chain of DELEGATECALLs of any length keeps caller, account and value of its origin |
| CallResume.CallResumes | src/processor.cpp:1196-1342 | whatever a child and everything below it do, the parent resumes one past its call with its operands replaced by one result word, its memory changed by growth and the output window only, and all contexts below untouched; the word and the window are those of the ending, and the child was what the operand words of the call name |
| CallResume.EndingsHandOver | src/processor.cpp:1246-1302 | a child that returns, halts or throws always gives control back to a parent with room for one word; no exception escapes |
| Termination.BoundExists | src/processor.cpp:28-30 | every world has a bound for its code lengths |
| Termination.TurnLowers | src/processor.cpp:206-222 | every turn that takes no jump lowers the lexicographic weight of remaining code per depth |
| Termination.JumpFreeRunsEnd | src/processor.cpp:206-222 | a run that takes no jump has ended within its weight |
| Termination.JumpFreeStartsEnd | src/processor.cpp:177-226 | from any call of `run` a bound on the turns of a jump-free run is known beforehand |
| Balance.PayToTotal | include/eEVM/account.h:32-59 | a payment, refused or not, keeps the sum of balances, except that a self-payment which passes the two guards adds its amount |
| Balance.ExecBalance | src/processor.cpp:1216-1285 | every opcode, throwing or not, moves the sum by exactly its self-payments and the endowment of a creation at a fresh address |
| Balance.StepBalance | src/processor.cpp:206-222 | the same for every turn of the loop, handlers included |
| Balance.RunBalance | src/processor.cpp:177-226 | after any run the sum is the initial one plus everything minted on the way |
| Balance.Conservation | src/processor.cpp:177-226 | the sum is conserved exactly in the runs in which no turn pays itself or endows a fresh account, runs left by an exception included |
| Balance.CleanUpTotal | src/processor.cpp:228-230 | the final clean-up takes exactly the balances of the self-destructed accounts out of the sum |
| Balance.EndedTotal | src/processor.cpp:177-233 | after a run that has ended: the initial sum, plus everything minted, minus the balances of the removed accounts |
| Oddities.CrashesExactly | src/processor.cpp:1035-1040 | an opcode throws a foreign exception if and only if it is CALLDATALOAD with an offset from 2^64 - 32 to 2^64 - 1 |
| Oddities.EscapesExactly | src/processor.cpp:206-226 | in every reachable state, a turn leaves `run` if and only if code has run off, a throw or a return meets a full parent, a halt meets a full parent and a full grandparent, or CALLDATALOAD overflows |
| Oddities.LoadEscapes | src/processor.cpp:1035-1040 | from any call of `run`, a program that loads input at an offset leaves `run` in its second turn if and only if the offset is 2^64 - 32 or more |
| Oddities.HandlerEscapes | src/processor.cpp:213-217 | a run from the start that is left because the exception handler of a child finds its parent full |
| Oddities.PastLimit | src/stack.cpp:41-83 | from at most 1024 words, an opcode leaves more if and only if it is a DUP on exactly 1024 |
| Oddities.StackGrows | src/stack.cpp:75-83 | a run from the start that has 1030 words on its stack |
| Oddities.FirstTwice | src/processor.cpp:206-222 | when a run goes on after its first turn, the counter is still 0 if and only if the first opcode is not a PUSH |
| Oddities.SelfdestructMints | src/processor.cpp:1216-1222 | from the start, an account that destroys itself in its own favour adds its balance to the sum, if twice the balance is below 2^256 |
| Disassembler.Dis | include/eEVM/disassembler.h:116-178 | succeeds exactly when no reached PUSH is truncated; then the index has every instruction, the reverse look-up the positions of every opcode, and every instruction the comment that the bytes of the program call for |
| Disassembler.ResolveJump | include/eEVM/disassembler.h:157-174 | a jump is resolved by the low 64 bits of the immediate of the instruction before it, found as the neighbour in the index |
| Disassembler.PreviousPrecedes | include/eEVM/disassembler.h:157-162 | the neighbour in the index is the preceding instruction of the program, and only the first instruction has none |
| Disassembler.TruncatedIsRejected | include/eEVM/disassembler.h:126-134 | failure means that some instruction start has a PUSH whose immediate passes the end |
| Disassembler.PushAgrees | include/eEVM/disassembler.h:63-68 | the interpreter throws at a PUSH exactly where the disassembler does (or with a full stack), else it pushes the immediate the disassembler lists |
| Disassembler.ListingIsProgram | include/eEVM/disassembler.h:121-141 | opcodes and immediates in counter order concatenate to the program |
| Disassembler.ListingIsIndex | include/eEVM/disassembler.h:121-141 | the listing has the instructions in increasing position, without gaps |
| Disassembler.JumpdestsAgree | include/eEVM/disassembler.h:143-149 | the JUMPDEST positions of a disassembly are the jump destinations of the interpreter |
| JumpNames.JumpsGoWhereNamed | include/eEVM/disassembler.h:154-174 | in every state that any call of `run` reaches: a jump behind a PUSH finds that immediate on top; when taken it succeeds if and only if the listing resolves it and the immediate is below 2^64, and it goes to the named place |
| JumpNames.NamedButThrows | include/eEVM/disassembler.h:166-174 | a program whose jump is listed as a branch to position 11 and throws, because the immediate has more than 64 bits |
| Samples.CreateBytecode | samples/hello_world/main.cpp:11-36 | the generator loop with its 8-bit counter produces the store-and-return program of the string |
| Samples.HelloWorld | samples/hello_world/main.cpp:11-36 | from any call of `run`, the program returns the string and a zero byte if and only if the string has at most 254 bytes |
| Samples.PushUint256 | samples/sum/main.cpp:21-32 | appends PUSH32 and the 32 bytes of the number |
| Samples.CreateAPlusBBytecode | samples/sum/main.cpp:34-59 | the generator produces the adding program |
| Samples.SumOfTwo | samples/sum/main.cpp:34-59 | from any call of `run`, for all a and b, the program returns the 32 bytes of (a + b) mod 2^256 |
| SampleRuns.HelloSample | samples/hello_world/main.cpp:52-84 | generating, deploying and running on the objects returns the string and a zero byte |
| SampleRuns.SumSample | samples/sum/main.cpp:84-110 | generating, deploying and running on the objects returns the sum |
| RlpCode.ToByteStringU64 | include/eEVM/rlp.h:94-117 | the mask loop gives the big-endian bytes without leading zeros, none for 0 |
| RlpCode.ToByteString256 | include/eEVM/rlp.h:119-139 | the same for 256-bit integers |
| RlpCode.PrefixMultipleLength | include/eEVM/rlp.h:141-171 | puts the list header of the length in front |
| RlpCode.EncodeSingle | include/eEVM/rlp.h:173-212 | single byte, short or long string form |
| RlpCode.EncodeElements | include/eEVM/rlp.h:78-92 | a vector or array is a byte string around an RLP list of its elements |
| RlpCode.EncodeValue | include/eEVM/rlp.h:236-265 | the encoding of one argument of any type |
| RlpCode.ReadNumber | include/eEVM/rlp.h:301-325 | shifts in the bytes and moves data and size behind them |
| RlpCode.ReadLength | include/eEVM/rlp.h:454-524 | reads a header as the specification says and moves data and size accordingly, or throws |
| RlpCode.ReadImpl | include/eEVM/rlp.h:585-628 | decodes one value of any type, data and size included, or throws |
| RlpCode.ReadPayload | include/eEVM/rlp.h:327-452 | decodes the payload of a non-tuple |
| RlpCode.ReadVector | include/eEVM/rlp.h:397-415 | decodes elements while bytes of the list remain |
| RlpCode.ReadTuple | include/eEVM/rlp.h:540-550 | decodes the elements of a tuple in order |
| RlpCode.EncodeThenDecode | include/eEVM/rlp.h:631-645 | running the encoder and the decoder on any value of a schema returns it and consumes the input |
| RlpRoundTrip.MinimalValue | include/eEVM/rlp.h:94-117 | integer payloads have no leading zero and stand for their number |
| RlpRoundTrip.HeaderRange | include/eEVM/rlp.h:144-211 | first bytes of headers stay in the ranges of Appendix B of the Ethereum Yellow Paper |
| RlpRoundTrip.HeaderRoundTrip | include/eEVM/rlp.h:454-524 | reading a header gives back its kind and length and stops at the payload |
| RlpRoundTrip.RoundTrip | include/eEVM/rlp.h:585-628 | decoding an encoded value gives the value back, whatever follows, with data and size exactly behind it |
| RlpRoundTrip.DecodeInvertsEncode | include/eEVM/rlp.h:631-645 | decode(encode(v)) == v for every value of every schema |
| RlpRoundTrip.SelfDelimiting | include/eEVM/rlp.h:236-265 | encode(a) + x == encode(b) + y implies a == b and x == y |
| RlpForm.StringShortest | include/eEVM/rlp.h:173-212 | no byte string that the decoder reads as the single item bs is shorter than its encoding |
| RlpForm.ListShortest | include/eEVM/rlp.h:141-171 | the same for list headers |
| RlpForm.SingleBytes | include/eEVM/rlp.h:183-189 | a byte up to 0x7f, zero included, is its own encoding, and the empty string is [0x80] |
| RlpForm.Kinds | include/eEVM/rlp.h:214-265 | a tuple is encoded as a list, everything else as a byte string |
| RlpForm.VectorInside | include/eEVM/rlp.h:78-92 | inside the byte string of a vector is the list of its encoded elements |
| RlpForm.SmallNumbers | include/eEVM/rlp.h:94-117 | zero is the empty string, a number below 0x80 its own byte |
| RlpForm.LongHeaders | include/eEVM/rlp.h:454-524 | a long header is read whatever its length bytes say, leading zeros included, and is an error when they are cut off |
| RlpForm.IntegersRead | include/eEVM/rlp.h:301-375 | an integer is read from any byte string of at most 8 (256-bit: 32) bytes, narrow types keep the low bytes, and a longer string is an error |
| RlpForm.FixedSizes | include/eEVM/rlp.h:345-375 | a byte array of fixed size is read from byte strings of that size only |
| RlpForm.DecodedHasType | include/eEVM/rlp.h:301-452 | whatever the input, a decoded value is a value of the schema: integers in range, arrays of the right size, elements of the right type |
| RlpForm.TrailingBytes | include/eEVM/rlp.h:631-660 | bytes after an encoding are reported as left over, and empty input is an error |
| RlpForm.TrailingPack | include/eEVM/rlp.h:631-660 | several arguments never decode from more than their encoding |
| RlpForm.KindMismatch | include/eEVM/rlp.h:585-628 | a list does not decode as a byte string, nor a byte string as a tuple |
| RlpPacks.PackRoundTrip | include/eEVM/rlp.h:555-583 | several arguments come back with the input consumed if and only if none of them is a tuple, for every schema |
| RlpPacks.PackValues | include/eEVM/rlp.h:555-583 | the values alone come back if and only if the types survive: no value from the first tuple on, and sizes that last; otherwise decoding throws |
| RlpPacks.LastTuple | include/eEVM/rlp.h:555-583 | with one tuple at the end, the values come back if and only if it is a chain of tuples of one tuple each, down to an empty one |
| RlpPacks.TuplePackFails | include/eEVM/rlp.h:555-566 | a one-number tuple next to a number is encoded but cannot be decoded |
| RlpPacks.EmptyTupleUnread | include/eEVM/rlp.h:555-583 | an empty tuple next to a number comes back and leaves its header unread |

## Left out

- Interpreter.Execute: runs at most a given number of turns, because a run may loop forever; the theorems on values quantify over that number.
- Operations.ComputeBinary: takes products, quotients and remainders of 256- and 512-bit integers as exact; of intx.hpp only `exp` and the conversion from `int` are modelled.
- Instructions.Log: states the entry handed to the log handler, but not what the handler does with it.
- State.SimpleGlobalState.Insert: reports what the code asserts instead of aborting, as in a build without assertions.
- Division.Sdivrem: division by zero is undefined in the code and excluded.
- Keccak and contract addresses are uninterpreted functions of an environment; the permutation and its sponge are not part of this model.
- Block and transaction data, gas values and block hashes are arbitrary functions of that environment.
- Handlers are data instead of closures, accounts of contexts are found by address or object, and object lifetimes are not modelled.
- Counters are unbounded; they never pass the code length, which is below 2^63.
- RLP: sizes below 2^64; `bool` is not among the integer types; reading past a buffer is an error instead of undefined; `std::string` is the byte-string type.
- The 32-bit `clz_generic`, 128-bit left shifts by arbitrary amounts, shifts by a 128-bit amount and the in-place operators of int128.hpp.
- Mnemonics of the disassembler, and comments as text: they are data here.
- Gas accounting and precompiled contracts, which the code does not have.
- Exception messages, traces, JSON conversion, formatting and checksummed addresses.
- The erc20 sample and the argument handling, random addresses and printing of the other samples.
