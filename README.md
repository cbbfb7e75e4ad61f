# A model of a nand2tetris VM translator (project 7)

The translator reads a file of VM commands (`push`/`pop` on the memory segments and
stack arithmetic) and writes Hack assembly. It builds its output as one Python string of
instructions separated by commas, then turns every comma into a line break.
`hvm_student.py` is the skeleton handed out with the project. Its stack helpers and
`pointerSeg` are written; everything else is stubbed. `old/hvm_student.py` is a complete
version with the dispatch tables, `fixedSeg`, `constantSeg`, `line2Command`,
`uniqueLabel` and the driver `ParseFile`.

The model has five modules:

- `Python` (python.dfy): the built-ins the source relies on, namely `str.strip`,
  `split('//')[0]`, `split()`, `str(n)` and `replace`, and the ways a run can end
  abnormally (`IndexError`, `TypeError`, `UnboundLocalError`, `sys.exit`).
- `CommaText` (commatext.dfy): a Python string of instructions, kept as the pieces between
  its commas. `Concat` is Python's `+` on those strings, so a fragment that forgets its
  trailing comma fuses two instructions, exactly as in the text. `JoinConcat` proves the
  representation faithful.
- `Hack` (hack.dfy): a small interpreter for straight-line Hack assembly (A, D, RAM,
  `@value`, `dest=comp`). It makes it possible to state what each generated fragment does
  to the machine.
- `Translator` (translator.dfy): `hvm_student.py`. It covers `getPushD`, `getPopD`,
  `SEGLABEL`, `pointerSeg` (as written and as its comments describe it), the stubs, and a
  `ParseFile` that can only emit the halt loop.
- `OldTranslator` (old_translator.dfy): `old/hvm_student.py`. It covers the tables, the
  three segment generators, `line2Command`, `uniqueLabel`, the branch logic of `ParseFile`
  as functions (`Classify`, `LineCode`, `Step`, `Translate`, `Output`), and the imperative
  driver in the class `Translation`. Its field `labelNumber` is `LABEL_NUMBER` with the
  corrected allocator: the counter is global and the label is `tempN` (see Findings).

Several fragments of the complete version do not do what their comments say. Each of
the fragments listed under "## Findings" is modelled as written, shown by a lemma, and
paired with a corrected definition that carries the intended property. Other defects of
the driver (the comparison entries shadowed in ARITH_BINARY, the TypeError from indexing
a segment string, the relabelling that only handles `isGT`) are modelled as written and
exposed by lemmas, without a corrected counterpart.

## Model

| member | source | states |
|---|---|---|
| Python.Strip | old/hvm_student.py:168 | the result has no surrounding whitespace, is no longer than the input, and is empty exactly when the input is all whitespace |
| Python.CommentStart | old/hvm_student.py:172 | the cut point of `split('//')[0]`: the position of the first `//`, or the end when there is none |
| Python.ParseNatStr | old/hvm_student.py:145 | reading back the decimal digits of `str(n)` gives `n`, so `@` followed by `str(index)` loads `index` |
| Python.StrInjective | old/hvm_student.py:178 | distinct counters print as distinct digit strings |
| Python.RemoveSpaces | old/hvm_student.py:245 | `replace(" ","")` leaves no space, changes a space-free string not at all, and introduces no new character |
| Python.RemoveSpacesReplace | old/hvm_student.py:245 | deleting the spaces is `replace(" ", "")` itself: every other character survives, in order |
| Python.Words | old/hvm_student.py:189 | `split()` with no argument: a string with something besides whitespace has at least one word |
| Python.WordsTrimmed | old/hvm_student.py:189 | every word `split()` yields is non-empty and holds no whitespace |
| Python.WordsBlank | old/hvm_student.py:189 | an all-whitespace string has no words |
| Python.WordsSingle | old/hvm_student.py:189 | a non-empty string without whitespace is one word, itself |
| Python.WordsSkip | old/hvm_student.py:189 | leading whitespace does not change the words |
| Python.WordsSeparated | old/hvm_student.py:189 | split at whitespace, the words of `a + b` are the words of `a` followed by those of `b`; with the three lemmas above this fixes the words of every string as its maximal runs of non-whitespace, in order |
| Python.WordsChars | old/hvm_student.py:189 | the words laid end to end are exactly the non-whitespace characters of the string, in order |
| CommaText.JoinConcat | old/hvm_student.py:197 | the text of `Concat(x, y)` is the Python concatenation of the texts of `x` and `y` |
| CommaText.JoinAppendComma | old/hvm_student.py:197 | `outString + code + ","` as pieces has the text of outString, then code, then a comma |
| CommaText.ConcatValid | old/hvm_student.py:197 | gluing two comma-free texts with `+` creates no comma |
| Translator.GetPushDShape | hvm_student.py:125-133 | getPushD is five comma-free instructions, each followed by a comma |
| Translator.GetPopDShape | hvm_student.py:135-143 | getPopD is four comma-free instructions, each followed by a comma |
| Translator.FixedSeg | hvm_student.py:95-101 | the stub falls off its end: None for every input |
| Translator.ConstantSeg | hvm_student.py:104-112 | the stub falls off its end: None for every input |
| Translator.Line2Command | hvm_student.py:115-116 | the stub falls off its end: None for every line, so ParseFile skips every line |
| Translator.UniqueLabel | hvm_student.py:120-122 | the stub falls off its end: None, which the halt loop prints as `None` |
| Translator.PushDEffect | hvm_student.py:125-133 | getPushD writes D to RAM[SP] and advances SP. D and every other word are unchanged, and A ends at SP |
| Translator.PopDEffect | hvm_student.py:135-143 | getPopD moves SP down by one and loads the old top into D. As its comment says, A is left at the popped word |
| Translator.PushThenPop | hvm_student.py:125-143 | `getPushD() + getPopD()` restores SP and D. Only the word just above the stack keeps the copy |
| Translator.PointerSeg | hvm_student.py:37-92 | returns code exactly when the segment is in SEGLABEL and the direction is `push` or `pop`; otherwise it falls off its end (None) |
| Translator.PointerSegHead | hvm_student.py:60 | every fragment pointerSeg returns starts with `@index` and `D=A` |
| Translator.PointerPushPieces | hvm_student.py:65-74 | the push text is `@index,D=A,@BASE,` followed by `A=M,A=A+D,D=M,` and getPushD |
| Translator.PointerPopPieces | hvm_student.py:76-92 | the pop text is the head, `A=D+M,D=M,@R13,M=D,`, getPopD and `@R13,A=M,M=D,` |
| Translator.SegHeadEffect | hvm_student.py:60-73 | the head sets A to the RAM word holding the segment base and D to the index |
| Translator.PointerPushEffect | hvm_student.py:49-74 | `push seg i` pushes RAM[RAM[base] + i], and SP goes up by one. No other word is written |
| Translator.PointerPopEffect | hvm_student.py:76-92 | `pop seg i` as written puts the contents c of the segment word in R13, moves SP down and stores the popped value at address c |
| Translator.PointerPopMissesSegmentWord | hvm_student.py:91 | with LCL=300, RAM[300]=7 and 42 on top, `pop local 0` leaves RAM[300] at 7 and writes 42 to RAM[7] |
| Translator.PointerSegIntended | hvm_student.py:76-89 | the pop as its comments describe it (`D=D+M` stages the address). It returns code under the same condition as pointerSeg |
| Translator.PointerSegIntendedPush | hvm_student.py:65-74 | the intended generator differs from the written one in the pop only |
| Translator.PointerPopIntendedEffect | hvm_student.py:50-52 | the intended pop stores the old top at RAM[base] + i and moves SP down. Besides that, only the scratch word R13 changes |
| Translator.PointerPushPopRoundTrip | hvm_student.py:37-92 | pushing a segment word and popping it back with the intended pop restores the word and SP |
| Translator.PopThroughR13 | hvm_student.py:85-91 | the shared pop tail pops into D and stores D at the address held in R13 |
| Translator.Render | hvm_student.py:192 | `replace(" ","").replace(',','\n')` gives one line per piece with no spaces, leaves space-free pieces unchanged, and yields no comma when the pieces have none; by RemoveSpacesReplace, each line is its piece with only the spaces deleted |
| Translator.ParseFile | hvm_student.py:145-192 | with line2Command and uniqueLabel stubbed to None, every line is skipped and the output is `(None)`, `@None`, `0;JMP` |
| OldTranslator.ComparisonsShadowed | old/hvm_student.py:7-33 | every key of ARITH_TEST is also a key of ARITH_BINARY, with the same text |
| OldTranslator.EqLabelMismatch | old/hvm_student.py:13 | the `eq` entry jumps to `isEQ` but defines no `(isEQ)`; it defines `(isLT)`, as `lt` does |
| OldTranslator.EqLabelIntended | old/hvm_student.py:13 | the corrected `eq` entry defines the label it jumps to and differs from the written one only at that line |
| OldTranslator.ComparisonLabelFused | old/hvm_student.py:12-14 | in every comparison the label definition is fused with the next `@SP` on one line |
| OldTranslator.BinaryAsWrittenEffect | old/hvm_student.py:8-11 | as emitted (with no getPopD in front), `add`/`sub`/`and`/`or` address RAM[-1], store RAM[-1] op D there and leave SP and the stack unchanged |
| OldTranslator.AddAsWrittenKeepsOperands | old/hvm_student.py:197 | `add` with 2 and 3 on the stack leaves SP at 258 and RAM[256] at 2 |
| OldTranslator.BinaryIntendedEffect | old/hvm_student.py:5-11 | the intended fragment replaces the two top words x, y by x op y and moves SP down by one |
| OldTranslator.UnaryEffect | old/hvm_student.py:20-23 | `neg`/`not` replace the top word by its negation or complement. SP and every other word are unchanged |
| OldTranslator.TablesValid | old/hvm_student.py:7-33 | every table entry is comma-free text |
| OldTranslator.FixedSeg | old/hvm_student.py:110-131 | raises UnboundLocalError for `addr` exactly when the segment is neither pointer nor temp |
| OldTranslator.FixedPushPieces | old/hvm_student.py:123-126 | the push text is `@` + "3"/"5" + the index digits, `D=A`, then getPushD |
| OldTranslator.FixedPushEffect | old/hvm_student.py:123-126 | `push pointer/temp i` pushes the NUMBER spelled by the base digit followed by i, not a memory word |
| OldTranslator.TempPushAsWritten | old/hvm_student.py:121-126 | `push temp 2` pushes 52 whatever RAM[7] holds |
| OldTranslator.FixedPopPieces | old/hvm_student.py:128-129 | the pop text fuses `M=D` and getPopD's `@SP` into the line `M=D@SP` |
| OldTranslator.FixedPopStuck | old/hvm_student.py:129 | fixedSeg's pop never runs past the fused line, on any machine state |
| OldTranslator.FixedSegIntended | old/hvm_student.py:114-115 | the corrected generator addresses RAM[3 + i] or RAM[5 + i] directly. It raises under the same condition as fixedSeg |
| OldTranslator.FixedIntendedPushEffect | old/hvm_student.py:125-126 | the corrected push pushes RAM[base + i] |
| OldTranslator.FixedIntendedPopEffect | old/hvm_student.py:128-129 | the corrected pop stores the old top at RAM[base + i] and moves SP down |
| OldTranslator.FixedIntendedRoundTrip | old/hvm_student.py:110-131 | pushing a pointer/temp word and popping it back restores the word and SP |
| OldTranslator.ConstantSeg | old/hvm_student.py:134-164 | returns code exactly for the constant and static segments, and None (falls off its end) for any other |
| OldTranslator.ConstantPushEffect | old/hvm_student.py:144-148 | `push constant n` pushes n |
| OldTranslator.ConstantPopDiscards | old/hvm_student.py:150-151 | `pop constant n` only discards the top of the stack |
| OldTranslator.StaticPushAddress | old/hvm_student.py:155-159 | `push static i` pushes the address of `STATIC.i`, not the word stored there |
| OldTranslator.StaticPopNeverStores | old/hvm_student.py:161-162 | `pop static i` puts the address in R13 and pops into D, but stores nothing. Only R13 and SP change |
| OldTranslator.StaticSegIntended | old/hvm_student.py:155-162 | the corrected static generator: every branch starts with `@STATIC.i` and ends its text with a comma; its pieces and effects are the rows below |
| OldTranslator.StaticIntendedPushPieces | old/hvm_student.py:155-159 | the corrected static push is `@STATIC.i`, `D=M`, then getPushD |
| OldTranslator.StaticIntendedPopPieces | old/hvm_student.py:161-162 | the corrected static pop stages the address of `STATIC.i` in R13, then pops into D and stores through R13 |
| OldTranslator.StaticIntendedPushEffect | old/hvm_student.py:155-159 | the corrected push pushes the word stored at `STATIC.i` |
| OldTranslator.StaticIntendedPopEffect | old/hvm_student.py:161-162 | the corrected pop stores the old top at `STATIC.i` and moves SP down |
| OldTranslator.StaticIntendedRoundTrip | old/hvm_student.py:155-164 | pushing a static variable and popping it back restores the variable and SP |
| OldTranslator.Line2Command | old/hvm_student.py:166-173 | None exactly for a blank line or one starting with `//`; otherwise the command is non-empty, stripped and comment-free |
| OldTranslator.Line2CommandIdempotent | old/hvm_student.py:166-173 | line2Command leaves its own result unchanged |
| OldTranslator.Line2CommandKeeps | old/hvm_student.py:166-173 | a non-empty line without surrounding whitespace or `//` comes back as itself |
| OldTranslator.Line2CommandText | old/hvm_student.py:166-173 | the command is the line's own text: it starts where the leading whitespace ends, and what follows it in the line strips to nothing or to a `//` comment, and it ends before the first `//` (with the next character added it still holds none) |
| OldTranslator.Label | old/hvm_student.py:178 | the label built from the counter, without the `@`, is a Hack symbol |
| OldTranslator.LabelInjective | old/hvm_student.py:175-181 | distinct counter values give distinct labels, and equal values give equal labels |
| OldTranslator.LabelAsWritten | old/hvm_student.py:178 | the label as written is `@` in front of the corrected label `tempN` |
| OldTranslator.HaltLoopLines | old/hvm_student.py:244 | the halt loop is the three lines `(l)`, `@l` and `0;JMP` |
| OldTranslator.HaltLoopAsWritten | old/hvm_student.py:178 | with the label as written, the halt loop is `(@tempN)` and `@@tempN`, and neither names a symbol |
| OldTranslator.HaltLoopWellFormed | old/hvm_student.py:243-244 | with a plain label, the halt loop defines a symbol and jumps to it |
| OldTranslator.NextLabel | old/hvm_student.py:175-181 | with LABEL_NUMBER local (as written) the call raises UnboundLocalError; with it global, it returns a symbol and moves the counter on by one |
| OldTranslator.LabelsDistinct | old/hvm_student.py:218-219 | labels drawn one after the other from the counter differ |
| OldTranslator.Args | old/hvm_student.py:189 | one argument per word of the command |
| OldTranslator.ArgsAreWords | old/hvm_student.py:189 | the `strip()` of each word changes nothing: the arguments are the words of `split()`, each non-empty and without whitespace |
| OldTranslator.Classify | old/hvm_student.py:189-241 | the tests in their order: a recognised operator is in its table; the comparison branch is never taken; the program exits with status -1 exactly when the first word is in no table and the second names no segment |
| OldTranslator.Relabel | old/hvm_student.py:222 | the `replace("isGT", …).replace("endGT", …)` pair keeps the number of instructions; RelabelValid and RelabelOnlyGt state what it does to the text |
| OldTranslator.RelabelValid | old/hvm_student.py:222 | substituting two symbols for `isGT` and `endGT` creates no comma |
| OldTranslator.RelabelOnlyGt | old/hvm_student.py:222 | the substitution leaves the `eq` and `lt` entries untouched |
| OldTranslator.ComparisonCode | old/hvm_student.py:218-222 | whenever the comparison branch yields code, that code is comma-free |
| OldTranslator.ClassifyCases | old/hvm_student.py:189-241 | a first word in ARITH_BINARY gives Binary; one only in ARITH_UNARY gives Unary; a first word in no table before a segment name gives Segment; IndexError comes exactly from an empty list or a lone unrecognised word |
| OldTranslator.CommandCode | old/hvm_student.py:189-241 | the branch chain on one command: any code it yields is comma-free and the counter is unchanged on success; BinaryLine, UnaryLine and SegmentLine give each branch's outcome |
| OldTranslator.KindCode | old/hvm_student.py:190-236 | the code of a classified command is comma-free, and only a comparison could move the counter |
| OldTranslator.BinaryLine | old/hvm_student.py:187-197 | a line whose first word is a key of ARITH_BINARY contributes that entry and keeps the counter |
| OldTranslator.UnaryLine | old/hvm_student.py:199-203 | a line whose first word is `neg` or `not` contributes that ARITH_UNARY entry and keeps the counter |
| OldTranslator.SegmentLine | old/hvm_student.py:225-236 | a line naming a segment second raises TypeError for `push`/`pop`, and adds nothing for any other first word |
| OldTranslator.LineCode | old/hvm_student.py:187-241 | the code of a line is comma-free, and a line that gets through leaves the counter where it was |
| OldTranslator.Step | old/hvm_student.py:197 | a pass that gets through leaves the output empty or ending in a comma, with comma-free pieces |
| OldTranslator.StepText | old/hvm_student.py:197 | a pass appends the line's code and one comma to the output text |
| OldTranslator.Translate | old/hvm_student.py:186-241 | the loop over the lines ends, when no line raises, with comma-free output that is empty or ends in a comma |
| OldTranslator.TranslateExtends | old/hvm_student.py:186-236 | the loop only appends: the text it starts from stays at the front of the text it ends with |
| OldTranslator.Output | old/hvm_student.py:184-245 | ParseFile returns text exactly when no line raises and the counter is global; otherwise the first line's error ends the run |
| OldTranslator.OutputText | old/hvm_student.py:184-245 | with the counter global, the output is the text the loop built, one line per instruction with its spaces deleted, followed by the halt loop on the counter's label |
| OldTranslator.TranslateCounter | old/hvm_student.py:186-241 | the loop never moves LABEL_NUMBER, because no line reaches the comparison branch |
| OldTranslator.TranslateAppend | old/hvm_student.py:186 | the loop reads the lines in order: translating `a + b` is translating `a`, then `b` from where `a` left off |
| OldTranslator.FirstErrorEndsRun | old/hvm_student.py:238-241 | the first line that raises or exits ends ParseFile with that outcome, whatever follows it |
| OldTranslator.AsWrittenAlwaysFails | old/hvm_student.py:175-181 | as written, ParseFile never returns text; if no line raises, the final uniqueLabel() call raises UnboundLocalError |
| OldTranslator.EmptyFile | old/hvm_student.py:184-245 | an empty file raises as written; with the counter global and at 0, it gives `(temp0)`, `@temp0`, `0;JMP` |
| OldTranslator.OutputShape | old/hvm_student.py:243-245 | with the counter global, any output ends with the halt loop on the counter's label, and no line holds a space or a comma |
| OldTranslator.Translation.constructor | old/hvm_student.py:50 | LABEL_NUMBER starts at 0 |
| OldTranslator.Translation.UniqueLabel | old/hvm_student.py:175-181 | the corrected allocator (counter global, label `tempN`): returns the label of the current counter and advances the counter by one |
| OldTranslator.Translation.ParseFile | old/hvm_student.py:184-245 | with the corrected allocator, the result is `Output` of the lines from the current counter (so OutputText gives its text), a run that returns text has used one label, and a run that raises leaves the counter as it was |

## Left out

- File input and output are not modelled: reading the file named on the command line (or `SimpleAdd.vm`), `print` and `close`. `ParseFile` takes the lines as a sequence and returns the output lines.
- `print("Unknown command!")` and `print(args)` before `sys.exit(-1)` are not modelled. The exit itself is the error `Exit(-1, args)`.
- `import os` is unused by the code.
- The Hack interpreter runs straight-line code only. Label definitions and jumps stop a run, so the comparison fragments and the halt loop are stated as text, not executed.
- Hack words are 16 bits. The model uses unbounded integers, so `add`, `sub` and `neg` do not wrap around, and `&` and `|` are two's-complement operations of unbounded width.
- Static variables: the addresses the assembler gives `STATIC.i` are a parameter of the machine state (`symbols`), not allocated from RAM[16] on.
- The `ParseFile` segment branch: `SEGMENTS` maps names to plain strings, so `SEGMENTS[args[1]]["push"]` raises TypeError before `args[2]` is read. The model returns that error. The segment generators are never reached from the driver and are modelled on their own, with an integer index.
- OldTranslator.Relabel applies the two `replace` calls to each comma-separated piece instead of the whole string. Neither pattern contains a comma, so the text is the same, but that equality is not proved.
- OldTranslator.ComparisonCode states only that its code is comma-free. Classify never returns a comparison, so what that code would do is not modelled.
- OldTranslator.Translation: the class models the driver with the corrected allocator (counter global, label `tempN`). The allocator as written raises UnboundLocalError; that behaviour is `Output` with the counter `Local`, stated in `AsWrittenAlwaysFails`.
- OldTranslator.NextLabel uses the corrected label text `tempN`; the text as written, `@tempN`, is `LabelAsWritten` and is stated in `HaltLoopAsWritten`.
- Translator.ParseFile does not model the body of `if command:` (hvm_student.py:150-188). line2Command is a stub that returns None, so that body is never entered.
- Translator.PointerPopEffect, PointerPopIntendedEffect, BinaryIntendedEffect, StaticPopNeverStores and the other pop lemmas assume SP ≥ 16 (the stack lies above R0–R15, as in the standard mapping). Without it, a pop could overwrite SP or R13 itself.
- Python exceptions are values of `PyError`. Tracebacks and the exception text are not modelled.

## Findings

| source | as written | input that shows it | evidently intended | confidence | as-written member | corrected member |
|---|---|---|---|---|---|---|
| hvm_student.py:91 | `A=D+M,D=M` loads the contents of the segment word into R13, and the pop stores through that value | LCL=300, RAM[300]=7, 42 on top: `pop local 0` writes 42 to RAM[7] and leaves RAM[300] at 7 | `D=D+M` stages the address RAM[LCL]+index, as the comments at lines 80-89 say | high; not executed | Translator.PointerPopMissesSegmentWord | Translator.PointerPopIntendedEffect |
| old/hvm_student.py:178-179 | the assignment to LABEL_NUMBER makes it local to uniqueLabel, so the read at line 178 raises UnboundLocalError | any file, even an empty one | `global LABEL_NUMBER` in uniqueLabel | high; not executed | OldTranslator.AsWrittenAlwaysFails | OldTranslator.OutputShape |
| old/hvm_student.py:178 | the label is `@tempN`, so the halt loop reads `(@tempN)`, `@@tempN` | an empty file with the counter at 0 | the label `tempN`, with `@` added where it is used | high; not executed | OldTranslator.HaltLoopAsWritten | OldTranslator.HaltLoopWellFormed |
| old/hvm_student.py:8-11 | `add`, `sub`, `and` and `or` are emitted without the getPopD their comment assumes, and `@SP,A=A-1` addresses RAM[-1] | `add` with 2 and 3 on the stack leaves SP at 258 and RAM[256] at 2 | getPopD followed by `@SP,A=M-1,M=M op D` | medium; not executed | OldTranslator.AddAsWrittenKeepsOperands | OldTranslator.BinaryIntendedEffect |
| old/hvm_student.py:123 | `addr + str(index)` glues digits, and `D=A` loads that number | `push temp 2` pushes 52 whatever RAM[7] holds | `@(base+index)` followed by `D=M` | high; not executed | OldTranslator.TempPushAsWritten | OldTranslator.FixedIntendedPushEffect |
| old/hvm_student.py:129 | `"D=A,@R13,M=D" + getPopD()` lacks a comma, producing the line `M=D@SP` | `pop temp 0`, on any machine state | a comma after `M=D`, the address staged without the duplicate `D=A`, and the store through R13 | high; not executed | OldTranslator.FixedPopStuck | OldTranslator.FixedIntendedPopEffect |
| old/hvm_student.py:155-162 | `@STATIC.i,D=A` loads the address of the static variable; push pushes that address, and pop stages it in R13 but never stores through it | `pop static 0` with STATIC.0 at 16 and 42 on top leaves RAM[16] as it was (and `push static 0` pushes 16 whatever RAM[16] holds) | push loads with `D=M`; pop stores the popped value through R13, as pointerSeg does | high; not executed | OldTranslator.StaticPopNeverStores | OldTranslator.StaticIntendedRoundTrip |
| old/hvm_student.py:13 | the `eq` entry defines `(isLT)` but jumps to `@isEQ` | any `eq` command if the comparison branch were reached | `(isEQ)` | high; not executed | OldTranslator.EqLabelMismatch | OldTranslator.EqLabelIntended |
