# Verified models of the regular expression engine, bignums, arrays, module inclusion and eRuby

The project models five parts of the repository in Dafny and proves what they are for.
`dafny verify dfyconfig.toml` checks everything.

**Regular expressions** (`oniguruma/`, one-byte characters, with respect to case). A pattern is a
parse tree; `setup_tree` writes notes on it; the compiler turns it into bytes with two-byte
relative jumps; a machine with one explicit stack runs them.

- `RegInt` has the operations and their bytes, `RegTree` the trees and the length analyses, `RegComp`
  the byte code of a tree, `RegCompiler` the compiler that appends it to a growing buffer in place,
  `RegJumps` the proof that every address in a program leads to an operation.
- `RegRef` is the reference: a backtracking matcher as a function, which lists every outcome (end
  position and captures) in order of preference. `RegFacts` has its elementary properties,
  `RegAgree` says that what agrees below a node agrees at the node.
- `RegExec` is the machine, one step at a time; `RegMatchAt` is `match_at` in place. `RegSim` and
  `RegCorrect` prove that the code of every part delivers exactly the outcomes of the reference in
  order and gives the stack and the captures back; `RegMatch` draws the conclusion for whole
  patterns, `RegRestore` proves the undo discipline of the capture records.
- `RegSetup` is `setup_tree`; `RegPeek` proves that the operations that look one byte ahead change
  nothing; `RegReading` compares the tree alone with the tree as it is laid out; `RegLanguage` says what a
  pattern matches as a relation, without any matching procedure, and proves that the matcher decides it; `RegPattern` puts all of it together; `RegEmptyPass` is a
  pattern on which the layout shows. `RegClass` is the bitset of a class and what the leaves of a tree
  match, byte by byte; `RegLeast` says that the least length of a match is attained.
- `RegReduce` is the reduction of nested quantifiers and what it does to the language, `RegOrder` what it
  does to the order of preference.
- `RegSearch` is string search (naive, Horspool, byte map) and the forward half of `regex_search`.

**Multi-precision integers** (`ruby/bignum.c`). Numbers are sign and digit array; the width of a
digit is an unknown constant of at least 16 bits. `BigBase` has values and powers, `BigDivision` the
division loop, `BigNum` the number objects and the shifts, `BigArith` division, floor division,
addition and subtraction, `BigMul` multiplication and powers, `BigBits` the bitwise operations and shifts,
`BigText` printing and parsing, `BigRead` which texts are read as a given number.

**Arrays** (`ruby/array.c`). `RubyArray` has array objects whose buffers are shared until somebody
writes, `RubyArrayRun` any run of operations on any number of arrays, `RubyFlatten` flattening in
place.

**Module inclusion** (`ruby/class.c`): `RubyInclude`, on linked chains of ancestors.

**eRuby** (`eruby/eruby_lib.c`): `Eruby`, the compiler from templates to Ruby programs.

How to read the main regular expression theorem: `Outcomes(n, u, s, maxMem, how)` is the list the
reference matcher gives. `ByTree` is the reading of the tree alone: every quantifier is its mandatory
copies and behind them its loop or its optional copies, whatever the compiler does. `ByLayout` enters
a loop in its middle where the compiler does, and `ByCode` also looks one byte ahead. The machine is
proved to follow `ByCode`; `RegPeek.FastIsPlain` says that `ByCode` and `ByLayout` are equal, and
`RegReading.LayoutExact` exactly when `ByLayout` and `ByTree` are. A state *delivers* a list when the
machine reaches the exit with the first outcome, and after failing back delivers the rest, and in the
end has popped everything it pushed. In all readings a pass through a loop body that consumes nothing
leaves the loop with what it captured, as the null check does.

## Findings

- `x+` with a body longer than 50 bytes is compiled as a jump into the middle of its loop
  (oniguruma/regcomp.c:3365-3378), so the null check ends the loop behind a first pass that consumed
  nothing, where a copy of the body followed by the loop would go on (oniguruma/regexec.c:1279-1315).
  `(?:\1a|()|z...z)+` with 51 letters z, on the text `a`, reports the end 0, and with fewer letters,
  which never match anyway, the end 1: `RegEmptyPass.EmptyPassEndsLoop`. Order and captures are those of
  the tree exactly when no such pass leaves the body something to match (`RegReading.JumpInExact`,
  `RegReading.LayoutExact`); without back-references and atomic groups, when the body has no empty match
  (`RegReading.OrderlessOnce`); and it is enough that the body always consumes something, which for
  plain trees is exact (`RegReading.SteadyHarmless`, `RegReading.SteadyExact`). Which texts match at all
  is right in every case for patterns without back-references and atomic groups
  (`RegPattern.PatternDecides`).
- Reducing `+?` under `*` or under `+` changes what is preferred (oniguruma/regcomp.c:2567):
  with /m, `(?:.+?)*` prefers the end of the text and becomes `(?:.+?)?`, which prefers one byte:
  `RegOrder.ReorderedEnds`. The other 34 pairs of quantifiers keep the order of preference on every body that always consumes something
  (`RegOrder.OrderKept`, `RegOrder.OrderChanged`).
- `next_setup` notes the head of the next list element before that element is set up; where the head is
  a string below a quantifier that is expanded into one longer string, the noted node is gone by the
  time the compiler reads it: `RegSetup.NoteOutlivesNode`.
- `rb_big_rshift` complements a digit that is not there when the shift takes exactly the digits of a
  negative number whose complement needs no sign digit: `BigBits.DigitsLeft`.
- `output` of the eRuby compiler puts a text longer than its buffer in front of what the buffer holds; no
  caller passes one: `Eruby.Compiler.Output`.

## Model

| member | source | states |
|---|---|---|
| `RegInt.ShortRoundTrip` | oniguruma/regint.h:113-170 | a two-byte operand is read back unchanged exactly when it fits a C short |
| `RegInt.WordRoundTrip` | oniguruma/regint.h:121-170 | a four-byte operand is read back unchanged |
| `RegInt.FetchEncoded` | oniguruma/regint.h:507-646 | every operation is decoded from the bytes it was encoded to, and decoding ends behind it |
| `RegComp.LengthIsCodeSize` | oniguruma/regcomp.c:3613-3821 | compile_length_tree announces exactly the number of bytes compile_tree writes, for every tree the parser makes, OP_REPEAT included, and every numbering and memory status |
| `RegComp.QuantLength` | oniguruma/regcomp.c:3268-3449 | the same for every layout of a quantifier |
| `RegComp.AltLength` | oniguruma/regcomp.c:3637-3660 | the same for alternatives with their OP_PUSH and OP_JUMP |
| `RegComp.EffectLength` | oniguruma/regcomp.c:3493-3605 | the same for groups, lookahead and atomic groups |
| `RegJumps.CodeListed` | oniguruma/regcomp.c:3613-3821 | the code of a tree is a list of operations, and every address in it leads to the start of one of them or to their end |
| `RegJumps.JumpsLand` | oniguruma/regint.h:507-646 | decoding a compiled program one operation after the other never fails before the end, and the address of every operation it comes by leads to the start of an operation inside the program |
| `RegJumps.ProgramBoundaries` | oniguruma/regcomp.c:6110-6126 | decoding comes by the start of the tree, OP_END and the end of the program |
| `RegCompiler.Regex.Expand` | oniguruma/regint.h:314-352 | the buffer grows by doubling and keeps its bytes |
| `RegCompiler.Regex.Add` | oniguruma/regint.h:338-353 | bytes are appended to the growing buffer and nothing else changes |
| `RegCompiler.Regex.AddOpcodeRelAddr` | oniguruma/regcomp.c:2818-2850 | an opcode and a two-byte relative address are appended |
| `RegCompiler.Regex.AddString` | oniguruma/regcomp.c:2942-2984 | a string is appended as the shortest OP_EXACT operation for its length |
| `RegCompiler.Regex.CompileTimes` | oniguruma/regcomp.c:3012-3021 | the mandatory copies are appended one behind the other |
| `RegCompiler.Regex.CompileChecked` | oniguruma/regcomp.c:2987-3009 | the body of a loop is wrapped in a null check exactly when it may be empty, with a number of its own |
| `RegCompiler.Regex.CompileOptions` | oniguruma/regcomp.c:3422-3436 | optional copies are appended, each behind an OP_PUSH to the common end computed from the length analysis |
| `RegCompiler.Regex.CompileRange` | oniguruma/regcomp.c:3238-3263 | a counted repeat is appended with its number, address and bounds, its body and OP_REPEAT_INC |
| `RegCompiler.Regex.CompileQualifier` | oniguruma/regcomp.c:3338-3449 | the in-place compiler appends exactly the code of the quantifier |
| `RegCompiler.Regex.CompileAlt` | oniguruma/regcomp.c:3697-3760 | the loop over alternatives, with the end position computed beforehand, appends exactly the code of the tree |
| `RegCompiler.Regex.CompileTree` | oniguruma/regcomp.c:3697-3821 | compile_tree appends exactly the code of the tree to what was there, and uses up its numbers for null checks and repeats |
| `RegCompiler.Regex.Compile` | oniguruma/regcomp.c:6110-6126 | the buffer holds the code of the tree and OP_END |
| `RegFacts.MinLengthSound` | oniguruma/regcomp.c:3824-3919 | the 32-bit minimum is positive only where every match consumes something, and overstates nothing below 2 gigabytes |
| `RegFacts.MinLengthBound` | oniguruma/regcomp.c:3824-3919 | get_min_match_length never exceeds the length of a match in texts below 2 gigabytes; where it is positive every match consumes something in any text |
| `RegLeast.MinLengthExact` | oniguruma/regcomp.c:3824-3919 | without alternatives, whose minimum starts from 0, and below 2 gigabytes the minimum is attained: a text of that length is matched wherever it stands |
| `RegFacts.RunLeast` | oniguruma/regcomp.c:3824-3919 | every outcome of the reference matcher lies inside the text, at least the least length behind its start, and leaves other groups alone |
| `RegSim.PopAll` | oniguruma/regexec.c:315-330 | failing through entries that hold no alternative reaches the entries below with every capture undone |
| `RegSim.DeliverConcat` | oniguruma/regexec.c:315-393 | two lists of outcomes come one behind the other when the second begins where the first gives up |
| `RegCorrect.SimLeaf` | oniguruma/regexec.c:656-1262 | one operation of a string, class, anchor or back-reference delivers exactly the outcomes of its node |
| `RegCorrect.SimDotStar` | oniguruma/regexec.c:981-1039 | OP_ANYCHAR_STAR and OP_ANYCHAR_STAR_PEEK_NEXT deliver their outcomes longest first |
| `RegCorrect.SimAlt` | oniguruma/regcomp.c:3697-3760 | the code of an alternative delivers the outcomes of the left side and then those of the right side |
| `RegCorrect.SimCopies` | oniguruma/regcomp.c:3012-3021 | mandatory copies deliver the outcomes of the first copy, each followed by all of the others, in order |
| `RegCorrect.SimOptional` | oniguruma/regcomp.c:3422-3436 | nested optional copies deliver the longer repetitions first |
| `RegCorrect.SimGreedy` | oniguruma/regcomp.c:3363-3421 | the loop of t* delivers exactly the outcomes of the greedy loop, with or without a guard or a null check |
| `RegCorrect.SimLazy` | oniguruma/regcomp.c:3363-3421 | the loop of t*? delivers them with leaving first |
| `RegCorrect.PassConsumes` | oniguruma/regcomp.c:2987-3009 | a loop body without a null check consumes something in every pass |
| `RegCorrect.SimQuant` | oniguruma/regcomp.c:3338-3449 | every inlined layout of a quantifier delivers exactly the outcomes of the quantifier, read as it is laid out (`ByCode`) |
| `RegCorrect.SimGroup` | oniguruma/regcomp.c:3535-3576 | a group delivers the outcomes of its body with the captured span, and undoes it on failing back, with or without a memory status bit |
| `RegCorrect.SimFirst` | oniguruma/regexec.c:1447-1486 | positive lookahead and atomic groups deliver the first outcome of their body only, although their entries were made void |
| `RegCorrect.SimNot` | oniguruma/regexec.c:1463-1474 | negative lookahead delivers its start exactly when its body has no outcome |
| `RegCorrect.Sim` | oniguruma/regexec.c:544-1559 | the code of every part of a tree delivers exactly the outcomes of the part read as it is laid out, in their order, with their captures, and gives the stack back |
| `RegMatch.ProgramDelivers` | oniguruma/regexec.c:544-1559 | running a compiled tree explores exactly its outcomes, read as it is laid out, in their order |
| `RegMatch.RegionsAgree` | oniguruma/regexec.c:615-655 | the region set at OP_END is that of the captures |
| `RegMatch.MachineMatches` | oniguruma/regexec.c:544-1559 | match_at halts without leaving its code, with the first outcome of the tree read as it is laid out and its captures, or REG_MISMATCH when there is none |
| `RegMatchAt.Matcher.StackPop` | oniguruma/regexec.c:315-330 | STACK_POP in place reaches the topmost entry that resumes, with the undo records above it undone |
| `RegMatchAt.Matcher.Operation` | oniguruma/regexec.c:600-1530 | one operation in place is one step of the machine |
| `RegClass.BitsetMembers` | oniguruma/regint.h:298-302 | the bits set are those of the bytes they were set for |
| `RegClass.ClassNode.SetBit` | oniguruma/regint.h:298-302 | one more byte is in the class, and nothing else changes |
| `RegClass.ClassNode.AddRange` | oniguruma/regcomp.c:2086-2094 | a range adds exactly its bytes, and is refused exactly when it is the wrong way round |
| `RegClass.ClassAnswer` | oniguruma/regexec.c:841-846 | a class of the bytes `cs` is reported to match up to the next position exactly where the text has a byte of `cs`, or none of them when negated; elsewhere there is a mismatch |
| `RegClass.ClassNode.Runs` | oniguruma/regexec.c:895-899 | the same of a class node as the parser has filled it |
| `RegClass.DotIsClass` | oniguruma/regexec.c:963-975 | `.` has the outcomes of the class of all bytes but 10, and with /m of all bytes |
| `RegClass.StringIsLetters` | oniguruma/regexec.c:656-745 | a string has the outcomes of the list of its bytes, each a class of one |
| `RegClass.BackrefRepeats` | oniguruma/regexec.c:1234-1262 | a back-reference matches a byte for byte copy of what its group has matched, and nothing when it has not matched |
| `RegClass.EndAnchored` | oniguruma/regexec.c:1140-1147 | `\z` behind a tree leaves those of its outcomes that end with the text, in their order |
| `RegClass.StartAnchored` | oniguruma/regexec.c:1133-1138 | `\A` lets a tree match at the beginning of the text only, `\G` where match_at was started |
| `RegMatchAt.MatchAt` | oniguruma/regexec.c:544-1559 | the in-place matcher terminates on every compiled pattern and text and returns the first outcome, of the tree as it is laid out always, and of the tree alone where its loops are harmless |
| `RegRestore.StepTracked` | oniguruma/regexec.c:285-393 | every step keeps, for every entry on the stack, what the memory was when it was pushed |
| `RegRestore.MemoryRestored` | oniguruma/regexec.c:285-393 | in every reachable state of a pattern whose groups end with OP_MEMORY_END_PUSH, failing back restores mem_start_stk and mem_end_stk exactly |
| `RegSetup.SetupPrepares` | oniguruma/regcomp.c:4285-4395 | setup_tree marks every loop whose body may be empty and every group that is referred to |
| `RegSetup.SetupHonest` | oniguruma/regcomp.c:4136-4270 | head_exact and next_head_exact are true: they name the first byte of the body and of the next list element |
| `RegSetup.NoteOutlivesNode` | oniguruma/regcomp.c:4259-4370 | the note of next_setup carries the first byte of the node it points to, and setting up the next element frees that node exactly when its head is a string below a quantifier that is expanded |
| `RegSetup.SetupKeeps` | oniguruma/regcomp.c:4285-4395 | setup_tree keeps the least length, the head byte and the groups of a tree |
| `RegSetup.HeadsTrue` | oniguruma/regcomp.c:4136-4211 | a tree with a known head byte matches only in front of that byte |
| `RegPeek.RepeatSame` | oniguruma/regexec.c:1331-1355 | a guarded loop gives the outcomes of the plain loop, except some that what follows it must reject |
| `RegPeek.DotStarSame` | oniguruma/regexec.c:981-1039 | OP_ANYCHAR_STAR_PEEK_NEXT against the plain loop over any character |
| `RegPeek.FastIsPlain` | oniguruma/regcomp.c:4136-4270 | replacing plain operations by the ones that look one byte ahead changes no outcome, no capture and no order |
| `RegLanguage.MatcherFinds` | oniguruma/regexec.c:544-1559 | without back-references and atomic groups, backtracking ends exactly at those positions to which the pattern matches as a relation |
| `RegLanguage.RepeatFinds` | oniguruma/regexec.c:1279-1315 | leaving a loop after an empty pass loses no end position |
| `RegAgree.TreeAgrees` | oniguruma/regexec.c:544-1559 | trees of one kind whose subtrees have the same outcomes have the same outcomes |
| `RegReading.SetupReads` | oniguruma/regcomp.c:4285-4395 | setup_tree, string expansion included, changes no outcome of the tree |
| `RegReading.JumpInExact` | oniguruma/regcomp.c:3365-3378 | a loop of `t+` that is entered in its middle has the outcomes of one copy and the loop behind it exactly where no pass that consumed nothing leaves the body something to match |
| `RegReading.OrderlessOnce` | oniguruma/regexec.c:1279-1315 | without back-references and atomic groups that is exactly where the body has no empty match |
| `RegReading.LayoutExact` | oniguruma/regcomp.c:3338-3449 | the tree as it is laid out has the outcomes of the tree alone, in every subtree and everywhere in the text, exactly when its loops are harmless |
| `RegReading.SteadyHarmless` | oniguruma/regcomp.c:3365-3378 | they are harmless in every text when each loop entered in its middle has a body that always consumes something |
| `RegReading.SteadyExact` | oniguruma/regcomp.c:3338-3449 | for trees of strings, classes, lists, alternatives, quantifiers and groups that condition on the tree is exact |
| `RegEmptyPass.EmptyPassEndsLoop` | oniguruma/regcomp.c:3365-3378 | a compiled pattern for which match_at reports the end 0 where backtracking over the tree ends at 1 |
| `RegPattern.SetupSame` | oniguruma/regcomp.c:4285-4395 | setup_tree keeps what a tree matches as a relation |
| `RegPattern.PatternHalts` | oniguruma/regexec.c:544-1559 | for every parsed pattern, match_at on its compiled form halts with the first outcome of the tree as it is laid out |
| `RegPattern.OutcomesKept` | oniguruma/regcomp.c:4285-4395 | setup_tree, layout and the operations that look ahead change no outcome of the parsed tree, where its loops are harmless |
| `RegPattern.PatternDelivers` | oniguruma/regexec.c:544-1559 | there, running the compiled pattern explores exactly the outcomes of the parsed tree in their order of preference |
| `RegPattern.PatternMatches` | oniguruma/regexec.c:544-1559 | there, setup_tree, compiler and machine together report the first outcome of plain backtracking over the parsed tree, with its captures |
| `RegPattern.PatternDecides` | oniguruma/regexec.c:544-1559 | harmless or not: match_at reports a mismatch exactly when the parsed pattern matches from there to no end, and else an end to which it does match |
| `RegReduce.NestedIsOne` | oniguruma/regcomp.c:2551-2614 | two nested popular quantifiers match what one of them matches, whatever relation the body matches |
| `RegReduce.SameTrees` | oniguruma/regcomp.c:2551-2614 | what holds of quantifiers over every relation holds of the trees, each level with its own bounds and greed |
| `RegReduce.QualifierNode.PopularNum` | oniguruma/regcomp.c:2528-2549 | the number is at least 0 exactly for the six popular quantifiers |
| `RegReduce.MatchesKept` | oniguruma/regcomp.c:2551-2614 | for all 36 pairs the simplified quantifiers match what the nested pair matches, whatever relation the body matches |
| `RegReduce.ReduceNestedQualifier` | oniguruma/regcomp.c:2551-2614 | for all 36 pairs the node left behind stands on the same body and matches what the nested pair matched, whatever the body matches, with or without regard to captures; on all bodies that always consume something it finds the same in the same order of preference, exactly unless the pair is `+?` under `*` or `+` |
| `RegOrder.NodePicks` | oniguruma/regcomp.c:2551-2614 | the outcomes of a quantifier node, greedy or lazy, are those of the quantifier on the outcomes of its body |
| `RegOrder.OrderKept` | oniguruma/regcomp.c:2551-2614 | for every pair but `+?` under `*` or `+`, the simplified quantifiers give the outcomes of the nested pair in the same order, repetitions aside, on every body that always consumes something |
| `RegOrder.OrderChanged` | oniguruma/regcomp.c:2567 | for those two pairs they do not |
| `RegOrder.SameChoice` | oniguruma/regexec.c:315-330 | whatever follows two lists that are the same up to repetitions goes on from the same outcome |
| `RegOrder.TreesInOrder` | oniguruma/regcomp.c:2551-2614 | towers of quantifiers that keep the order keep it on every tree of positive least length, each level with its own greed |
| `RegOrder.ReorderedEnds` | oniguruma/regcomp.c:2567 | in any text, with /m: `(?:.+?)*` and `(?:.+?)+` prefer the end of the text, and what the reduction leaves of them prefers one byte |
| `RegSearch.LeftmostIs` | oniguruma/regexec.c:1685-1712 | the specification of forward search is the first occurrence |
| `RegSearch.RightmostIs` | oniguruma/regexec.c:1777-1804 | the specification of backward search is the last occurrence |
| `RegSearch.SkipSafe` | oniguruma/regexec.c:1850-1871 | no occurrence lies strictly inside a Horspool skip |
| `RegSearch.BackSkipSafe` | oniguruma/regexec.c:1947-1972 | the same backward |
| `RegSearch.SlowSearch` | oniguruma/regexec.c:1685-1712 | naive search finds the first occurrence |
| `RegSearch.SlowSearchBackward` | oniguruma/regexec.c:1777-1804 | naive search backward finds the last occurrence |
| `RegSearch.SearchInfo.SetBmSkip` | oniguruma/regcomp.c:5921-5955 | every entry of the skip table is right, in bytes or in ints by the length of the string |
| `RegSearch.SearchInfo.SetBmBackwardSkip` | oniguruma/regexec.c:1922-1944 | every entry of the backward skip table is right |
| `RegSearch.SearchInfo.SetOptimizeExact` | oniguruma/regcomp.c:5797-5839 | the search string is installed with tables that fit it |
| `RegSearch.SearchInfo.SetOptimizeMap` | oniguruma/regcomp.c:5774-5791 | the byte map and its distances are installed |
| `RegSearch.SearchInfo.BmSearch` | oniguruma/regexec.c:1836-1872 | Horspool search returns what naive search returns |
| `RegSearch.SearchInfo.BmSearchBackward` | oniguruma/regexec.c:1947-1972 | Horspool search backward returns what naive search backward returns |
| `RegSearch.SearchInfo.MapSearch` | oniguruma/regexec.c:1975-1985 | the first mapped byte is found |
| `RegSearch.SearchInfo.ForwardSearchRange` | oniguruma/regexec.c:2021-2122 | the first hit and the range of starts it allows; none only when there is no hit |
| `RegSearch.SearchInfo.RegexSearch` | oniguruma/regexec.c:2223-2390 | the optimised forward search returns the leftmost position at which match_at matches: below the range it loses no match, and where the range is the end of the text it changes nothing |
| `RegSearch.MatchesAtIsLanguage` | oniguruma/regexec.c:2336-2390 | the positions at which the search may stop are those from which the parsed pattern matches |
| `BigDivision.TrialLargeEnough` | ruby/bignum.c:1192-1193 | the trial digit from one divisor digit is never too small |
| `BigDivision.TrialSmallEnough` | ruby/bignum.c:1192-1193 | it is at most 2 too large |
| `BigDivision.BorrowIs` | ruby/bignum.c:1194-1215 | the borrow after multiply-subtract is 0 or -1, and -1 exactly when the digit is too large |
| `BigDivision.MultiplySubtract` | ruby/bignum.c:1195-1205 | the window loses the multiple of the divisor, up to the borrow |
| `BigDivision.AddBack` | ruby/bignum.c:1206-1215 | the window gains the divisor, up to the carry |
| `BigDivision.QuotientDigit` | ruby/bignum.c:1191-1217 | one round leaves quotient digit and remainder in place, with at most two corrections |
| `BigDivision.DivideLoop` | ruby/bignum.c:1190-1218 | the loop divides: dividend = quotient * divisor + remainder, remainder below the divisor |
| `BigNum.ShiftLeft` | ruby/bignum.c:1164-1182 | a magnitude is multiplied by a power of two below the base |
| `BigNum.ShiftRight` | ruby/bignum.c:1225-1238 | the remainder is divided by it again, in place |
| `BigNum.DivideByDigit` | ruby/bignum.c:1136-1145 | division by one digit in place |
| `BigArith.LongDivision` | ruby/bignum.c:1153-1242 | division of magnitudes with normalising shift, quotient and remainder |
| `BigArith.BigDivRem` | ruby/bignum.c:1115-1242 | x = q*y + r with |r| < |y| and r signed like x, for every x and normalised non-zero y |
| `BigArith.BigSub` | ruby/bignum.c:938-981 | the difference of the magnitudes with its sign, for operands of which the longer is not smaller |
| `BigArith.BigAdd` | ruby/bignum.c:985-1027 | sum or difference of signed numbers |
| `BigArith.BigDivMod` | ruby/bignum.c:1245-1261 | floor division: x = q*y + m, and m is zero or has the sign of y and is smaller |
| `BigMul.BigMultiply` | ruby/bignum.c:1068-1112 | the product, by rows in one result array |
| `BigMul.PowerHalves` | ruby/bignum.c:1378-1386 | an even power is the power of the square with half the exponent |
| `BigMul.BigPow` | ruby/bignum.c:1356-1388 | repeated squaring gives the power, for every exponent that is not negative |
| `BigBits.Get2Comp` | ruby/bignum.c:63-84 | a magnitude becomes the two's complement of its negative, with a sign digit where it is needed |
| `BigBits.BitOfDigits` | ruby/bignum.c:1399-1499 | bit i*BITSPERDIG+j of the infinite two's complement is bit j of digit i |
| `BigBits.BitsDetermine` | ruby/bignum.c:1399-1499 | an integer is determined by its bits |
| `BigBits.BigAnd` | ruby/bignum.c:1399-1446 | every bit of the result is the `and` of the operands' bits, for every sign and length |
| `BigBits.BigOr` | ruby/bignum.c:1450-1498 | every bit of the result is the `or` of the operands' bits |
| `BigBits.BigLshift` | ruby/bignum.c:1558-1583 | multiplication by a power of two |
| `BigBits.BigRshift` | ruby/bignum.c:1587-1626 | floor division by a power of two, wherever a digit is left to work on |
| `BigBits.DigitsLeft` | ruby/bignum.c:1587-1614 | no digit is left exactly when the shift takes all digits of a number that is not negative, or of a negative one whose complement needs no sign digit |
| `BigBits.ShiftThereAndBack` | ruby/bignum.c:1558-1626 | rb_big_lshift followed by rb_big_rshift gives the number back |
| `BigText.DecimalEstimate` | ruby/bignum.c:618-621 | 2^800 < 10^241 |
| `BigText.RoomForDigits` | ruby/bignum.c:618-636 | the estimate leaves room for all digits, in every base and length |
| `BigText.Big2Str` | ruby/bignum.c:602-669 | the text is the numeral of the number, with a sign when it is negative |
| `BigText.MulAdd` | ruby/bignum.c:473-486 | the number is multiplied by the base and the digit added, and the array is never left |
| `BigText.BigParse` | ruby/bignum.c:428-495 | the value of the digits read, or a refusal exactly for malformed text |
| `BigText.Uint2Big` | ruby/bignum.c:128-147 | a machine word becomes a number without leading zero digits |
| `BigText.WordParse` | ruby/bignum.c:404-425 | short texts: what strtoul reads, refused where it reads nothing or leaves more than spaces, and read again where it stops at an underscore |
| `BigText.CstrToInum` | ruby/bignum.c:308-495 | spaces, signs, the base the text names, prefixes, leading zeros, the way through strtoul for short texts, underscores and refusals as the definition of the parsed text says |
| `BigText.DigitsAgree` | ruby/bignum.c:404-495 | on plain digits both ways give the same number |
| `BigText.WrittenIsRead` | ruby/bignum.c:308-669 | every integer is read back as it was written, in bases 2, 8, 10 and 16 |
| `BigRead.NumeralPlaces` | ruby/bignum.c:602-669 | the character at each place of a numeral is that of the digit that counts for this power of the base |
| `BigRead.DigitsRead` | ruby/bignum.c:404-495 | digits of either case with single underscores between them are read as their value on both ways; what stands behind them is refused with badcheck unless it is spaces, and else ignored |
| `BigRead.TextRead` | ruby/bignum.c:308-495 | spaces, an optional sign, any prefix that names the base to the caller (none, 0, 0b, 0o, 0d, 0x in either case), and any spelling of the numeral of n > 0 with upper-case letters and underscores stand for n or -n |
| `BigRead.NumeralRead` | ruby/bignum.c:308-495 | in particular sign, prefix and Written(n, b), for every base the caller may give that the prefix goes with, with and without badcheck |
| `BigText.ThereAndBack` | ruby/bignum.c:308-669 | rb_big2str followed by rb_cstr_to_inum gives the number back |
| `RubyArray.StoredAt` | ruby/array.c:286-322 | assignment at an index, element by element: old ones kept, nil in the gap, the value at the index |
| `RubyArray.SplicedAt` | ruby/array.c:637-690 | splicing, element by element |
| `RubyArray.SlicedAt` | ruby/array.c:458-483 | slicing, element by element |
| `RubyArray.SplicedBack` | ruby/array.c:637-690 | putting back what a splice replaced gives the array back |
| `RubyArray.RArray.Modify` | ruby/array.c:59-72 | before a write a shared buffer is copied; no array's contents change |
| `RubyArray.RArray.Store` | ruby/array.c:286-322 | assignment at an index with nils in between, on this array only |
| `RubyArray.RArray.Pop` | ruby/array.c:349-361 | the last element is taken from this array only |
| `RubyArray.RArray.MakeShared` | ruby/array.c:364-377 | the buffer is handed to a holder, and nothing can be told from the outside |
| `RubyArray.RArray.Shift` | ruby/array.c:380-393 | the first element is taken by moving into the shared buffer |
| `RubyArray.RArray.Unshift` | ruby/array.c:396-416 | an element is put in front |
| `RubyArray.RArray.UnshiftAll` | ruby/array.c:419-440 | several elements are put in front |
| `RubyArray.RArray.Subseq` | ruby/array.c:458-483 | a slice looks into the same buffer, and changes no array |
| `RubyArray.RArray.Replace` | ruby/array.c:1303-1318 | both arrays look at one buffer, and hold the same |
| `RubyArray.RArray.Update` | ruby/array.c:637-690 | splicing in place, also of an array into itself |
| `RubyArray.RArray.DeleteAt` | ruby/array.c:1206-1227 | the element is removed and the others close the gap |
| `RubyArray.RArray.Clear` | ruby/array.c:1321-1331 | the array is emptied and no other changes |
| `RubyArrayRun.Act` | ruby/array.c:58-72 | each operation is the plain sequence operation on its array and leaves every other array as it was |
| `RubyArrayRun.Run` | ruby/array.c:58-72 | over every run of operations all arrays hold what plain sequences hold, whatever buffers were shared on the way |
| `RubyFlatten.Flatten` | ruby/array.c:1748-1773 | a nested array is replaced by its leaves in place, and the size change returned keeps cursor and limit right, also for empty arrays; it never raises on an acyclic nest |
| `RubyFlatten.FlattenBang` | ruby/array.c:1776-1798 | the array ends with exactly the leaves from left to right; nil exactly when there was nothing to flatten |
| `RubyInclude.Find` | ruby/class.c:382-398 | the place of the first node with the table, and whether a superclass lies before it |
| `RubyInclude.SuperclassInserted` | ruby/class.c:382-401 | a node inserted in front of the first superclass leaves it and what follows in place |
| `RubyInclude.IncludeModule` | ruby/class.c:354-406 | the old chain is what remains without the new nodes, every table of the module is there, none twice, the part from the first superclass on is untouched, and it raises exactly for a cyclic include; every new node stands directly behind that of the nearest table before it in the module's chain that has its node in front of the first superclass, or else behind the class |
| `RubyInclude.OrderFound` | ruby/class.c:385-398 | the insertion point moves to a node that is there already, unless a superclass stands in front of it |
| `RubyInclude.OrderInserted` | ruby/class.c:400-401 | it moves to a new node, and the places of the earlier ones stay right |
| `RubyInclude.NewAncestors` | ruby/class.c:375-404 | when no ancestor had a table of the module: the class, then the new nodes in the order of the module's chain, then the old ancestors |
| `RubyInclude.ModuleOrder` | ruby/class.c:375-404 | the tables of the module in front of the first superclass stand in the order of its chain, when the old chain does not hold its part of them in another order |
| `RubyInclude.IncludeTwice` | ruby/class.c:354-406 | including again changes nothing |
| `Eruby.ParseSource` | eruby/eruby_lib.c:463-590 | the pieces of a template give the template back |
| `Eruby.ParseExact` | eruby/eruby_lib.c:463-590 | a template falls apart into exactly those pieces whose texts give it and of which each can stand where it stands; it fails to compile exactly when there are none |
| `Eruby.CodeFrag` | eruby/eruby_lib.c:387-440 | an expression becomes print((...)) of its code, a statement its code with a newline or semicolon behind it, a comment only newlines; %%> stands for %> |
| `Eruby.ProgramMeans` | eruby/eruby_lib.c:463-590 | the generated program falls apart into literals that Ruby reads back as the template's text, printed expressions, statements that each end in a newline or semicolon, and empty lines: in template order what the template asks for |
| `Eruby.LinesKept` | eruby/eruby_lib.c:387-590 | the program has as many newlines as the template |
| `Eruby.Compiler.Nextc` | eruby/eruby_lib.c:318-344 | the next character is read and the position moves on |
| `Eruby.Compiler.Output` | eruby/eruby_lib.c:358-369 | text is appended behind what was emitted, through the buffer; a text longer than the buffer goes in front of what is still in it |
| `Eruby.Compiler.ParseEmbeddedProgram` | eruby/eruby_lib.c:387-440 | embedded code is copied up to the first end delimiter, %%> standing for %>, and of a comment only the newlines; it fails exactly when there is none |
| `Eruby.Compiler.ParseEmbeddedLine` | eruby/eruby_lib.c:442-461 | a % line is copied up to its end, and fails without one |
| `Eruby.Compiler.Compile` | eruby/eruby_lib.c:463-590 | the output is the program for the pieces of the template, or an error exactly when a delimiter or line end is missing |

## Left out

- Multi-byte encodings, case folding, option nodes, word boundaries, line anchors, look-behind and `\Z`: the model has one-byte characters only. The last four read `sprev`, which an empty back-reference leaves at the current position (oniguruma/regexec.c:1234-1262).
- Running OP_REPEAT and its increments: they are compiled and decoded, but a counted repeat too long to be written out is excluded from the matching theorems by `Inlined`, and the machine stops at it.
- Code of 32768 bytes or more, whose relative addresses do not fit a short.
- FIND_LONGEST and FIND_NOT_EMPTY: at OP_END they break out of the switch and go on behind the program (oniguruma/regexec.c:615-655).
- Serialisation on machines whose words are little-endian or may be read unaligned: the portable form of the operands is modelled.
- Pattern text parsing, node recycling, allocation failure, stack reallocation, regex chaining, statistics and debug output.
- Which string or byte map `regex_search` uses: (exact, dmin, dmax) is a promise, `RegSearch.SearchInfo.Promises`.
- RegSearch.SearchInfo.RegexSearch: backward `regex_search`, the anchors at the head of the search and `sub_anchor` are left out.
- RegSetup.SetupKeeps: setup_tree is modelled on values, so overwriting nodes in place is not captured; next_head_exact holds the byte and not the node (see Findings).
- RegPattern.PatternMatches: for patterns whose loops are harmless; for the others order and captures are those of the layout, `RegPattern.PatternHalts`.
- RegReduce.ReduceNestedQualifier: the order of preference is compared on bodies that always consume something; on bodies that may match nothing, where captures of empty passes count, only the language is.
- RegLanguage.MatcherFinds: not for back-references and atomic groups, whose ends depend on the order of alternatives.
- RegRestore.MemoryRestored: for patterns all of whose groups have their memory status bit, as MEM_STATS_ON_ALL gives; without the bit the end of a group is not recorded and only what can be read back is restored, which `RegCorrect.Sim` covers.
- The memory status bits of groups numbered 32 and above share bit 0; the model has one bit for each.
- Zero divisors and divisors with leading zeros: the zero guard of bigdivrem expects a length of 0.
- BigArith.BigDivRem: both results are always computed; the source may be asked for one only.
- BigBits.BigRshift: a shift that takes exactly as many whole digits as a negative number has, when its complement needs no sign digit, is left out: the source then complements a digit that is not there.
- BigBits.Get2Comp: for magnitudes other than zero, which is all its callers pass.
- rb_big_neg, rb_big_xor, negative exponents of rb_big_pow (which give floats), bignorm's change to Fixnum, floats, quad packing and random numbers.
- BigText.CstrToInum: bases 2, 8, 10 and 16, for others the source leaves the size of the number open; strtoul is taken to be that of the C standard.
- Array operations that call a block while writing, sort, hashing, inspect and join, taint, freeze and temporary locks; `rb_ary_delete`, which calls `==`.
- RubyFlatten.Flatten: the memo is a value that is passed on, not an array that is pushed and popped; what a recursive nest raises is modelled, but nothing is proved of cyclic nests.
- RubyInclude.IncludeModule: chains of class and module do not share nodes, which holds for a module that is not an ancestor node itself; taint, frozen and method cache are left out.
- Eruby.Compiler.Compile: templates without carriage returns and #! lines; the source line counter is left out.
- `ruby/dir.c`, `mod_ruby`, the eRuby CGI front end and everything else that is input and output.
