/** old/hvm_student.py: the complete translator. Its dispatch tables, the
    segment generators `fixedSeg` and `constantSeg`, the line cleaner
    `line2Command`, the label allocator `uniqueLabel` and the driver
    `ParseFile`. `getPushD`, `getPopD`, `SEGLABEL` and `pointerSeg` have the same
    text as in hvm_student.py and are taken from module Translator. */
module OldTranslator {
  import opened Python
  import opened CommaText
  import opened Hack
  import Translator

  // ---------------------------------------------------------------------------
  // The dispatch tables.

  function AddCode(): Frag { ["@SP", "A=A-1", "M=M+D"] }
  function SubCode(): Frag { ["@SP", "A=A-1", "M=M-D"] }
  function AndCode(): Frag { ["@SP", "A=A-1", "M=M&D"] }
  function OrCode(): Frag { ["@SP", "A=A-1", "M=M|D"] }

  function GtCode(): Frag {
    ["A=A-1", "D=M-D", "@isGT", "D;JGT", "@SP", "M=M-1", "A=M", "M=0", "@endGT", "0;JMP",
     "(isGT)@SP", "M=M-1", "A=M", "M=-1", "(endGT)"]
  }

  function EqCode(): Frag {
    ["A=A-1", "D=M-D", "@isEQ", "D;JEQ", "@SP", "M=M-1", "A=M", "M=0", "@endEQ", "0;JMP",
     "(isLT)@SP", "M=M-1", "A=M", "M=-1", "(endEQ)"]
  }

  function LtCode(): Frag {
    ["A=A-1", "D=M-D", "@isLT", "D;JLT", "@SP", "M=M-1", "A=M", "M=0", "@endLT", "0;JMP",
     "(isLT)@SP", "M=M-1", "A=M", "M=-1", "(endLT)"]
  }

  function NegCode(): Frag { ["@SP", "A=M-1", "M=-M"] }
  function NotCode(): Frag { ["@SP", "A=M-1", "M=!M"] }

  /** ARITH_BINARY: the four binary operations, and the three comparisons once more. */
  const ARITH_BINARY: map<string, Frag> :=
    map["add" := AddCode(), "sub" := SubCode(), "and" := AndCode(), "or" := OrCode(),
        "gt" := GtCode(), "eq" := EqCode(), "lt" := LtCode()]

  const ARITH_UNARY: map<string, Frag> := map["neg" := NegCode(), "not" := NotCode()]

  /** ARITH_TEST: the comparisons, with the same text as in ARITH_BINARY. */
  const ARITH_TEST: map<string, Frag> := map["gt" := GtCode(), "eq" := EqCode(), "lt" := LtCode()]

  /** SEGMENTS maps each segment name to a plain string. */
  const SEGMENTS: map<string, string> :=
    map["constant" := "D=A", "static" := "@%s", "pointer" := "@3", "temp" := "@5"]

  /** Every comparison is also a key of ARITH_BINARY, which the driver tests first. */
  lemma ComparisonsShadowed(op: string)
    ensures op in ARITH_TEST ==> op in ARITH_BINARY && ARITH_BINARY[op] == ARITH_TEST[op]
  {
  }

  /** Whether some line of the fragment starts by defining `(name)`. */
  predicate DefinesLabel(f: Frag, name: string) {
    exists i :: 0 <= i < |f| && StartsWith(f[i], "(" + name + ")")
  }

  /** No line of the `eq` fragment is the definition of `isEQ`. */
  lemma NotEqLabel(p: string)
    requires p in EqCode()
    ensures !StartsWith(p, "(isEQ)")
  {
    assert "(isEQ)"[4] == 'Q';
  }

  /** The `eq` fragment jumps to `isEQ` but defines `isLT` instead. */
  lemma EqLabelMismatch()
    ensures EqCode()[2] == "@isEQ" && !DefinesLabel(EqCode(), "isEQ")
    ensures DefinesLabel(EqCode(), "isLT") && DefinesLabel(LtCode(), "isLT")
  {
    var f := EqCode();
    assert StartsWith(f[10], "(isLT)");
    assert StartsWith(LtCode()[10], "(isLT)");
    forall i | 0 <= i < |f| ensures !StartsWith(f[i], "(isEQ)") {
      NotEqLabel(f[i]);
    }
  }

  /** The `eq` entry with the label it jumps to. */
  function EqCodeIntended(): Frag {
    ["A=A-1", "D=M-D", "@isEQ", "D;JEQ", "@SP", "M=M-1", "A=M", "M=0", "@endEQ", "0;JMP",
     "(isEQ)@SP", "M=M-1", "A=M", "M=-1", "(endEQ)"]
  }

  /** The intended `eq` entry defines the label it jumps to, and differs from the
      written one in that definition only. */
  lemma EqLabelIntended()
    ensures EqCodeIntended()[2] == "@isEQ" && DefinesLabel(EqCodeIntended(), "isEQ")
    ensures |EqCodeIntended()| == |EqCode()| &&
      forall i :: 0 <= i < |EqCode()| && i != 10 ==> EqCodeIntended()[i] == EqCode()[i]
  {
    assert StartsWith(EqCodeIntended()[10], "(isEQ)");
  }

  /** In every comparison the label definition is fused with the next
      instruction: no line is the bare label `(isXX)`. */
  lemma ComparisonLabelFused(op: string)
    requires op in ARITH_TEST
    ensures |ARITH_TEST[op][10]| == 9 && ARITH_TEST[op][10][0] == '(' && ARITH_TEST[op][10][5] == ')'
    ensures ARITH_TEST[op][10][6..] == "@SP"
  {
  }

  // ---------------------------------------------------------------------------
  // What the arithmetic fragments do.

  /** The binary arithmetic operations of the VM language. */
  predicate IsArithmetic(op: string) {
    op == "add" || op == "sub" || op == "and" || op == "or"
  }

  /** The VM's meaning of `op` on x (below) and y (top of the stack). */
  function BinaryValue(op: string, x: int, y: int): int
    requires IsArithmetic(op)
  {
    if op == "add" then x + y
    else if op == "sub" then x - y
    else if op == "and" then And(x, y)
    else Or(x, y)
  }

  /** The last line of each arithmetic entry: M := M op D. */
  function OpLine(op: string): string
    requires IsArithmetic(op)
  {
    if op == "add" then "M=M+D" else if op == "sub" then "M=M-D" else if op == "and" then "M=M&D" else "M=M|D"
  }

  lemma OpLineEffect(op: string, s: State)
    requires IsArithmetic(op)
    ensures Exec(OpLine(op), s) == Some(s.(ram := s.ram[s.a := BinaryValue(op, Mem(s, s.a), s.d)]))
  {
  }

  lemma ArithmeticEntry(op: string)
    requires IsArithmetic(op)
    ensures op in ARITH_BINARY && ARITH_BINARY[op] == ["@SP", "A=A-1", OpLine(op)]
  {
  }

  /** Appending `entry + ","` to a text that ends in a comma adds the entry's lines. */
  lemma EntryWithComma(f: Frag)
    requires |f| >= 1
    ensures Concat(f, Comma) == f + [""]
  {
    assert f[|f| - 1] + "" == f[|f| - 1];
    assert f[..|f| - 1] + [f[|f| - 1]] == f;
  }

  /** What ParseFile emits for `add`, `sub`, `and` and `or`: with no getPopD in
      front, `@SP,A=A-1` addresses RAM[-1], which receives RAM[-1] op D; SP and
      the stack are left as they were. */
  lemma BinaryAsWrittenEffect(op: string, s: State)
    requires IsArithmetic(op)
    ensures op in ARITH_BINARY
    ensures Run(Concat(ARITH_BINARY[op], Comma), s) ==
      Some(s.(a := -1, ram := s.ram[-1 := BinaryValue(op, Mem(s, -1), s.d)]))
  {
    ArithmeticEntry(op);
    EntryWithComma(ARITH_BINARY[op]);
    var s1 := s.(a := SP);
    assert Exec("@SP", s) == Some(s1);
    var s2 := s1.(a := -1);
    assert Exec("A=A-1", s1) == Some(s2);
    OpLineEffect(op, s2);
    var s3 := s2.(ram := s.ram[-1 := BinaryValue(op, Mem(s, -1), s.d)]);
    assert Run([""], s3) == Some(s3);
    assert Run([OpLine(op), ""], s2) == Some(s3);
    assert Run(["A=A-1", OpLine(op), ""], s1) == Some(s3);
    assert ARITH_BINARY[op] + [""] == ["@SP", "A=A-1", OpLine(op), ""];
  }

  /** `add` with 2 and 3 on the stack leaves SP at 258 and RAM[256] at 2. */
  lemma AddAsWrittenKeepsOperands()
    ensures
      var s := State(0, 5, map[SP := 258, 256 := 2, 257 := 3], map[]);
      var t := Run(Concat(ARITH_BINARY["add"], Comma), s);
      t.Some? && Mem(t.value, SP) == 258 && Mem(t.value, 256) == 2 && Mem(t.value, -1) == 5
  {
    var s := State(0, 5, map[SP := 258, 256 := 2, 257 := 3], map[]);
    BinaryAsWrittenEffect("add", s);
  }

  /** The binary fragment as the comment above ARITH_BINARY describes it: the
      top is popped into D first, and the entry then addresses the new top
      through SP, as the unary entries do. */
  function BinaryIntended(op: string): (f: Frag)
    requires IsArithmetic(op)
    ensures |f| == 8
  {
    Concat(Translator.GetPopD(), OnTop(OpLine(op)))
  }

  /** `@SP,A=M-1,line,`: the line runs with A at the top word of the stack. */
  function OnTop(line: string): Frag { ["@SP", "A=M-1", line, ""] }

  lemma OnTopArithmetic(op: string, t: State)
    requires IsArithmetic(op)
    ensures
      var top := Mem(t, SP) - 1;
      Run(OnTop(OpLine(op)), t) == Some(t.(a := top, ram := t.ram[top := BinaryValue(op, Mem(t, top), t.d)]))
  {
    var top := Mem(t, SP) - 1;
    var t1 := t.(a := SP);
    assert Exec("@SP", t) == Some(t1);
    var t2 := t1.(a := top);
    assert Exec("A=M-1", t1) == Some(t2);
    OpLineEffect(op, t2);
    var t3 := t2.(ram := t.ram[top := BinaryValue(op, Mem(t, top), t.d)]);
    assert Run([""], t3) == Some(t3);
    assert Run([OpLine(op), ""], t2) == Some(t3);
  }

  lemma BinaryIntendedText(op: string)
    requires IsArithmetic(op)
    ensures BinaryIntended(op) == Translator.PopLines() + OnTop(OpLine(op))
  {
    Translator.PopDText();
    AfterComma(Translator.PopLines(), OnTop(OpLine(op)));
  }

  /** The intended binary fragment replaces the two top words x, y by x op y. */
  lemma BinaryIntendedEffect(op: string, s: State)
    requires IsArithmetic(op) && Translator.StackAboveRegisters(s)
    ensures
      var sp := Mem(s, SP);
      var x := Mem(s, sp - 2);
      var y := Mem(s, sp - 1);
      Run(BinaryIntended(op), s) ==
        Some(s.(a := sp - 2, d := y, ram := s.ram[SP := sp - 1][sp - 2 := BinaryValue(op, x, y)]))
  {
    var sp := Mem(s, SP);
    var y := Mem(s, sp - 1);
    var t := s.(a := sp - 1, d := y, ram := s.ram[SP := sp - 1]);
    BinaryIntendedText(op);
    Translator.PopLinesEffect(s);
    OnTopArithmetic(op, t);
    assert Mem(t, SP) - 1 == sp - 2 && Mem(t, sp - 2) == Mem(s, sp - 2);
    RunSeq(Translator.PopLines(), OnTop(OpLine(op)), s, t,
           s.(a := sp - 2, d := y, ram := s.ram[SP := sp - 1][sp - 2 := BinaryValue(op, Mem(s, sp - 2), y)]));
  }

  /** The VM's unary operations: negation and bitwise not. */
  function UnaryValue(op: string, x: int): int
    requires op == "neg" || op == "not"
  {
    if op == "neg" then -x else Not(x)
  }

  /** `neg` and `not` replace the top word by its negation or complement; SP and
      every other word are unchanged. */
  lemma UnaryEffect(op: string, s: State)
    requires op == "neg" || op == "not"
    ensures op in ARITH_UNARY
    ensures
      var top := Mem(s, SP) - 1;
      Run(Concat(ARITH_UNARY[op], Comma), s) ==
        Some(s.(a := top, ram := s.ram[top := UnaryValue(op, Mem(s, top))]))
  {
    var top := Mem(s, SP) - 1;
    EntryWithComma(ARITH_UNARY[op]);
    var s1 := s.(a := SP);
    assert Exec("@SP", s) == Some(s1);
    var s2 := s1.(a := top);
    assert Exec("A=M-1", s1) == Some(s2);
    var line := if op == "neg" then "M=-M" else "M=!M";
    assert ARITH_UNARY[op] + [""] == ["@SP", "A=M-1", line, ""];
    var s3 := s2.(ram := s.ram[top := UnaryValue(op, Mem(s, top))]);
    assert Exec(line, s2) == Some(s3);
    assert Run([""], s3) == Some(s3);
    assert Run([line, ""], s2) == Some(s3);
  }

  // ---------------------------------------------------------------------------
  // fixedSeg, for the pointer and temp segments.

  /** fixedSeg. The address is the TEXT "@3" or "@5" followed by the index's
      digits, `D=A` loads that number itself, and the pop part lacks the comma
      between `M=D` and getPopD's `@SP`. Any other segment leaves `addr`
      unbound. */
  function FixedSeg(push: string, seg: string, index: int): (r: Result<Frag>)
    ensures r.Err? <==> seg != "pointer" && seg != "temp"
    ensures r.Err? ==> r.error == UnboundLocalError("addr")
  {
    if seg != "pointer" && seg != "temp" then Err(UnboundLocalError("addr"))
    else
      var addr := if seg == "pointer" then "@3" else "@5";
      var ans := [addr + Str(index), "D=A", ""];
      if push == "push" then Ok(Concat(ans, Translator.GetPushD()))
      else if push == "pop" then Ok(Concat(Concat(ans, ["D=A", "@R13", "M=D"]), Translator.GetPopD()))
      else Ok(ans)
  }

  /** The numeral fixedSeg writes after `@`: "3" or "5", then the index. */
  function FixedDigits(seg: string, index: nat): (d: string)
    ensures d != [] && AllDigits(d)
  {
    (if seg == "pointer" then "3" else "5") + NatStr(index)
  }

  lemma FixedPushPieces(seg: string, index: nat)
    requires seg == "pointer" || seg == "temp"
    ensures FixedSeg("push", seg, index) == Ok(["@" + FixedDigits(seg, index), "D=A"] + Translator.GetPushD())
  {
    var h := "@" + FixedDigits(seg, index);
    assert Str(index) == NatStr(index);
    assert (if seg == "pointer" then "@3" else "@5") + Str(index) == h;
    AfterComma([h, "D=A"], Translator.GetPushD());
    assert [h, "D=A"] + [""] == [h, "D=A", ""];
  }

  lemma DigitsHeadEffect(digits: string, s: State)
    requires digits != [] && AllDigits(digits)
    ensures Run(["@" + digits, "D=A"], s) == Some(s.(a := DigitsValue(digits), d := DigitsValue(digits)))
  {
    ExecDigits(digits, s);
    var s1 := s.(a := DigitsValue(digits));
    assert Exec("D=A", s1) == Some(s1.(d := DigitsValue(digits)));
    RunStep(["@" + digits, "D=A"], s, s1);
    assert ["@" + digits, "D=A"][1..] == ["D=A"];
  }

  /** `push pointer/temp index` as written pushes the NUMBER whose digits are
      the base followed by the index, not the word at base + index. */
  lemma FixedPushEffect(seg: string, index: nat, s: State)
    requires (seg == "pointer" || seg == "temp") && Mem(s, SP) != SP
    ensures FixedSeg("push", seg, index).Ok?
    ensures
      var v := DigitsValue(FixedDigits(seg, index));
      Run(FixedSeg("push", seg, index).value, s) ==
        Some(s.(a := SP, d := v, ram := s.ram[Mem(s, SP) := v][SP := Mem(s, SP) + 1]))
  {
    FixedPushPieces(seg, index);
    RunDigitsPush(FixedDigits(seg, index), s);
  }

  lemma RunDigitsPush(digits: string, s: State)
    requires digits != [] && AllDigits(digits) && Mem(s, SP) != SP
    ensures
      var v := DigitsValue(digits);
      Run(["@" + digits, "D=A"] + Translator.GetPushD(), s) ==
        Some(s.(a := SP, d := v, ram := s.ram[Mem(s, SP) := v][SP := Mem(s, SP) + 1]))
  {
    var v := DigitsValue(digits);
    DigitsHeadEffect(digits, s);
    Translator.PushDEffect(s.(a := v, d := v));
    RunSeq(["@" + digits, "D=A"], Translator.GetPushD(), s, s.(a := v, d := v),
           s.(a := SP, d := v, ram := s.ram[Mem(s, SP) := v][SP := Mem(s, SP) + 1]));
  }

  /** `push temp 2` pushes 52, whatever RAM[7] (temp 2 in the standard mapping) holds. */
  lemma TempPushAsWritten()
    ensures
      var s := State(0, 0, map[SP := 256, 7 := 99], map[]);
      var t := Run(FixedSeg("push", "temp", 2).value, s);
      t.Some? && Mem(t.value, 256) == 52 && Mem(t.value, SP) == 257
  {
    var s := State(0, 0, map[SP := 256, 7 := 99], map[]);
    FixedPushEffect("temp", 2, s);
    assert FixedDigits("temp", 2) == "52";
    assert DigitsValue("52") == 52 by {
      assert "52"[..1] == "5";
      assert DigitsValue("5") == 5 by { assert "5"[..0] == ""; }
    }
  }

  /** The lines of fixedSeg's pop: `M=D` and `@SP` fuse into one line. */
  lemma FixedPopPieces(seg: string, index: nat)
    requires seg == "pointer" || seg == "temp"
    ensures FixedSeg("pop", seg, index) ==
      Ok(["@" + FixedDigits(seg, index), "D=A", "D=A", "@R13", "M=D@SP", "M=M-1", "A=M", "D=M", ""])
  {
    var h := "@" + FixedDigits(seg, index);
    assert Str(index) == NatStr(index);
    assert (if seg == "pointer" then "@3" else "@5") + Str(index) == h;
    AfterComma([h, "D=A"], ["D=A", "@R13", "M=D"]);
    assert [h, "D=A"] + [""] == [h, "D=A", ""];
    var x := [h, "D=A", "D=A", "@R13", "M=D"];
    assert [h, "D=A"] + ["D=A", "@R13", "M=D"] == x;
    assert Concat(x, Translator.GetPopD()) == [h, "D=A", "D=A", "@R13"] + ["M=D" + "@SP"] + Translator.GetPopD()[1..];
    assert "M=D" + "@SP" == "M=D@SP";
    assert Translator.GetPopD()[1..] == ["M=M-1", "A=M", "D=M", ""];
    assert Concat([h, "D=A", ""], ["D=A", "@R13", "M=D"]) == x;
    assert Concat(Concat([h, "D=A", ""], ["D=A", "@R13", "M=D"]), Translator.GetPopD()) ==
      [h, "D=A", "D=A", "@R13", "M=D@SP", "M=M-1", "A=M", "D=M", ""];
  }

  /** The fused line `M=D@SP` is no Hack instruction: fixedSeg's pop never gets
      past it, on any machine state. */
  lemma FixedPopStuck(seg: string, index: nat, s: State)
    requires seg == "pointer" || seg == "temp"
    ensures FixedSeg("pop", seg, index).Ok? && Run(FixedSeg("pop", seg, index).value, s) == None
  {
    var p := ["@" + FixedDigits(seg, index), "D=A", "D=A", "@R13", "M=D@SP", "M=M-1", "A=M", "D=M", ""];
    FixedPopPieces(seg, index);
    ExecDigits(FixedDigits(seg, index), s);
    var s1 := s.(a := DigitsValue(FixedDigits(seg, index)));
    assert p[1..] == ["D=A", "D=A", "@R13", "M=D@SP", "M=M-1", "A=M", "D=M", ""];
    var s2 := s1.(d := s1.a);
    var s3 := s2.(a := R13);
    assert Exec("M=D@SP", s3) == None;
    assert Run(p[4..], s3) == None;
    assert Exec("@R13", s2) == Some(s3);
    assert Run(p[3..], s2) == None;
    assert Exec("D=A", s2) == Some(s2);
    assert Run(p[2..], s2) == None;
    assert Exec("D=A", s1) == Some(s2);
    RunStep(p, s, s1);
  }

  /** fixedSeg as its comment describes it: the segment word is RAM[base + index]
      with base 3 (pointer) or 5 (temp); push loads it with `D=M`, and pop
      stages its address in R13 and stores through it, as pointerSeg does. */
  function FixedSegIntended(push: string, seg: string, index: int): (r: Result<Frag>)
    ensures r.Err? <==> seg != "pointer" && seg != "temp"
  {
    if seg != "pointer" && seg != "temp" then Err(UnboundLocalError("addr"))
    else
      var addr := (if seg == "pointer" then 3 else 5) + index;
      if push == "push" then Ok(Concat(["@" + Str(addr), "D=M", ""], Translator.GetPushD()))
      else if push == "pop" then
        Ok(Concat(Concat(["@" + Str(addr), "D=A", "@R13", "M=D", ""], Translator.GetPopD()), Translator.StoreThroughR13()))
      else Ok(["@" + Str(addr), "D=A", ""])
  }

  /** The word a pointer or temp access names. */
  function FixedAddress(seg: string, index: nat): nat {
    (if seg == "pointer" then 3 else 5) + index
  }

  function StageFixed(addr: nat): seq<string> { ["@" + Str(addr), "D=A", "@R13", "M=D"] }

  lemma FixedIntendedPushPieces(seg: string, index: nat)
    requires seg == "pointer" || seg == "temp"
    ensures FixedSegIntended("push", seg, index) == Ok(["@" + Str(FixedAddress(seg, index)), "D=M"] + Translator.GetPushD())
  {
    var x := ["@" + Str(FixedAddress(seg, index)), "D=M"];
    AfterComma(x, Translator.GetPushD());
    assert x + [""] == ["@" + Str(FixedAddress(seg, index)), "D=M", ""];
  }

  lemma FixedIntendedPopPieces(seg: string, index: nat)
    requires seg == "pointer" || seg == "temp"
    ensures FixedSegIntended("pop", seg, index) ==
      Ok(StageFixed(FixedAddress(seg, index)) + (Translator.PopLines() + Translator.StoreThroughR13()))
  {
    var x := StageFixed(FixedAddress(seg, index));
    assert ["@" + Str(FixedAddress(seg, index)), "D=A", "@R13", "M=D", ""] == x + [""];
    AfterComma(x, Translator.GetPopD());
    Translator.PopDText();
    AppendAfterComma(x, Translator.PopLines(), Translator.StoreThroughR13());
  }

  lemma LoadFixedEffect(addr: nat, s: State)
    ensures Run(["@" + Str(addr), "D=M"], s) == Some(s.(a := addr, d := Mem(s, addr)))
  {
    ExecNumber(addr, s);
    assert Str(addr) == NatStr(addr);
    var s1 := s.(a := addr);
    assert Exec("D=M", s1) == Some(s1.(d := Mem(s, addr)));
    RunStep(["@" + Str(addr), "D=M"], s, s1);
    assert ["@" + Str(addr), "D=M"][1..] == ["D=M"];
  }

  lemma StageFixedEffect(addr: nat, s: State)
    ensures Run(StageFixed(addr), s) == Some(s.(a := R13, d := addr, ram := s.ram[R13 := addr]))
  {
    ExecNumber(addr, s);
    assert Str(addr) == NatStr(addr);
    var s1 := s.(a := addr);
    RunStep(StageFixed(addr), s, s1);
    assert StageFixed(addr)[1..] == ["D=A", "@R13", "M=D"];
    var s2 := s1.(d := addr);
    assert Exec("D=A", s1) == Some(s2);
    var s3 := s2.(a := R13);
    assert Exec("@R13", s2) == Some(s3);
    assert Exec("M=D", s3) == Some(s3.(ram := s.ram[R13 := addr]));
    assert Run(["D=A", "@R13", "M=D"], s1) == Some(s3.(ram := s.ram[R13 := addr]));
  }

  /** The intended push pushes RAM[base + index]. */
  lemma FixedIntendedPushEffect(seg: string, index: nat, s: State)
    requires (seg == "pointer" || seg == "temp") && Mem(s, SP) != SP
    ensures FixedSegIntended("push", seg, index).Ok?
    ensures
      var v := Mem(s, FixedAddress(seg, index));
      Run(FixedSegIntended("push", seg, index).value, s) ==
        Some(s.(a := SP, d := v, ram := s.ram[Mem(s, SP) := v][SP := Mem(s, SP) + 1]))
  {
    var addr := FixedAddress(seg, index);
    var v := Mem(s, addr);
    FixedIntendedPushPieces(seg, index);
    LoadFixedEffect(addr, s);
    Translator.PushDEffect(s.(a := addr, d := v));
    RunSeq(["@" + Str(addr), "D=M"], Translator.GetPushD(), s, s.(a := addr, d := v),
           s.(a := SP, d := v, ram := s.ram[Mem(s, SP) := v][SP := Mem(s, SP) + 1]));
  }

  lemma RunFixedIntendedPop(addr: nat, s: State)
    requires Translator.StackAboveRegisters(s)
    ensures
      var sp := Mem(s, SP);
      var top := Mem(s, sp - 1);
      Run(StageFixed(addr) + (Translator.PopLines() + Translator.StoreThroughR13()), s) ==
        Some(s.(a := addr, d := top, ram := s.ram[R13 := addr][SP := sp - 1][addr := top]))
  {
    var sp := Mem(s, SP);
    var t := s.(a := R13, d := addr, ram := s.ram[R13 := addr]);
    StageFixedEffect(addr, s);
    assert Mem(t, SP) == sp && Mem(t, sp - 1) == Mem(s, sp - 1) && Mem(t, R13) == addr;
    Translator.PopThroughR13(t);
    RunSeq(StageFixed(addr), Translator.PopLines() + Translator.StoreThroughR13(), s, t,
           s.(a := addr, d := Mem(s, sp - 1), ram := s.ram[R13 := addr][SP := sp - 1][addr := Mem(s, sp - 1)]));
  }

  /** The intended pop stores the old top at RAM[base + index] and moves SP down. */
  lemma FixedIntendedPopEffect(seg: string, index: nat, s: State)
    requires (seg == "pointer" || seg == "temp") && Translator.StackAboveRegisters(s)
    ensures FixedSegIntended("pop", seg, index).Ok?
    ensures
      var sp := Mem(s, SP);
      var addr := FixedAddress(seg, index);
      var top := Mem(s, sp - 1);
      Run(FixedSegIntended("pop", seg, index).value, s) ==
        Some(s.(a := addr, d := top, ram := s.ram[R13 := addr][SP := sp - 1][addr := top]))
  {
    FixedIntendedPopPieces(seg, index);
    RunFixedIntendedPop(FixedAddress(seg, index), s);
  }

  /** Pushing a pointer or temp word and popping it back restores the word and SP. */
  lemma FixedIntendedRoundTrip(seg: string, index: nat, s: State)
    requires (seg == "pointer" || seg == "temp") && Translator.StackAboveRegisters(s)
    ensures
      var addr := FixedAddress(seg, index);
      var t := Run(FixedSegIntended("push", seg, index).value, s);
      t.Some? &&
      var u := Run(FixedSegIntended("pop", seg, index).value, t.value);
      u.Some? && Mem(u.value, SP) == Mem(s, SP) && Mem(u.value, addr) == Mem(s, addr)
  {
    var sp := Mem(s, SP);
    var v := Mem(s, FixedAddress(seg, index));
    FixedIntendedPushEffect(seg, index, s);
    var t := s.(a := SP, d := v, ram := s.ram[sp := v][SP := sp + 1]);
    assert Translator.StackAboveRegisters(t) && Mem(t, Mem(t, SP) - 1) == v;
    FixedIntendedPopEffect(seg, index, t);
  }

  // ---------------------------------------------------------------------------
  // constantSeg, for the constant and static segments.

  /** The assembler symbol constantSeg uses for `static index`. */
  function StaticName(index: int): (name: string)
    ensures |name| > 7 && name[0] == 'S'
  {
    "STATIC." + Str(index)
  }

  /** constantSeg: None for any segment other than constant and static. */
  function ConstantSeg(push: string, seg: string, index: int): (r: Option<Frag>)
    ensures r.Some? <==> seg == "constant" || seg == "static"
  {
    if seg == "constant" then
      var ans := ["@" + Str(index), "D=A", ""];
      if push == "push" then Some(Concat(ans, Translator.GetPushD()))
      else if push == "pop" then Some(Concat(ans, Translator.GetPopD()))
      else Some(ans)
    else if seg == "static" then
      var ans := ["@" + StaticName(index), "D=A", ""];
      if push == "push" then Some(Concat(ans, Translator.GetPushD()))
      else if push == "pop" then Some(Concat(Concat(ans, ["@R13", "M=D", ""]), Translator.GetPopD()))
      else Some(ans)
    else None
  }

  lemma NumberHeadEffect(n: nat, s: State)
    ensures Run(["@" + Str(n), "D=A"], s) == Some(s.(a := n, d := n))
  {
    ExecNumber(n, s);
    assert Str(n) == NatStr(n);
    assert Exec("D=A", s.(a := n)) == Some(s.(a := n, d := n));
    RunStep(["@" + Str(n), "D=A"], s, s.(a := n));
    assert ["@" + Str(n), "D=A"][1..] == ["D=A"];
  }

  /** `push constant n` pushes n. */
  lemma ConstantPushEffect(n: nat, s: State)
    requires Mem(s, SP) != SP
    ensures ConstantSeg("push", "constant", n).Some?
    ensures Run(ConstantSeg("push", "constant", n).value, s) ==
      Some(s.(a := SP, d := n, ram := s.ram[Mem(s, SP) := n][SP := Mem(s, SP) + 1]))
  {
    AfterComma(["@" + Str(n), "D=A"], Translator.GetPushD());
    assert ["@" + Str(n), "D=A"] + [""] == ["@" + Str(n), "D=A", ""];
    NumberHeadEffect(n, s);
    Translator.PushDEffect(s.(a := n, d := n));
    RunSeq(["@" + Str(n), "D=A"], Translator.GetPushD(), s, s.(a := n, d := n),
           s.(a := SP, d := n, ram := s.ram[Mem(s, SP) := n][SP := Mem(s, SP) + 1]));
  }

  /** `pop constant n` raises nothing and only discards the top of the stack. */
  lemma ConstantPopDiscards(n: nat, s: State)
    requires Mem(s, SP) != SP + 1
    ensures ConstantSeg("pop", "constant", n).Some?
    ensures
      var sp := Mem(s, SP);
      Run(ConstantSeg("pop", "constant", n).value, s) ==
        Some(State(sp - 1, Mem(s, sp - 1), s.ram[SP := sp - 1], s.symbols))
  {
    AfterComma(["@" + Str(n), "D=A"], Translator.GetPopD());
    assert ["@" + Str(n), "D=A"] + [""] == ["@" + Str(n), "D=A", ""];
    NumberHeadEffect(n, s);
    var t := State(n, n, s.ram, s.symbols);
    Translator.PopDEffect(t);
    RunSeq(["@" + Str(n), "D=A"], Translator.GetPopD(), s, t,
           State(Mem(s, SP) - 1, Mem(s, Mem(s, SP) - 1), s.ram[SP := Mem(s, SP) - 1], s.symbols));
  }

  lemma StaticHeadEffect(index: int, s: State)
    requires StaticName(index) in s.symbols
    ensures
      var addr := s.symbols[StaticName(index)];
      Run(["@" + StaticName(index), "D=A"], s) == Some(s.(a := addr, d := addr))
  {
    var addr := s.symbols[StaticName(index)];
    ExecSymbol(StaticName(index), s);
    assert Exec("D=A", s.(a := addr)) == Some(s.(a := addr, d := addr));
    RunStep(["@" + StaticName(index), "D=A"], s, s.(a := addr));
    assert ["@" + StaticName(index), "D=A"][1..] == ["D=A"];
  }

  /** `push static i` pushes the ADDRESS the assembler gives STATIC.i, not the
      word stored there (`D=A` where `D=M` is needed). */
  lemma StaticPushAddress(index: int, s: State)
    requires StaticName(index) in s.symbols && Mem(s, SP) != SP
    ensures ConstantSeg("push", "static", index).Some?
    ensures
      var addr := s.symbols[StaticName(index)];
      Run(ConstantSeg("push", "static", index).value, s) ==
        Some(s.(a := SP, d := addr, ram := s.ram[Mem(s, SP) := addr][SP := Mem(s, SP) + 1]))
  {
    var addr := s.symbols[StaticName(index)];
    AfterComma(["@" + StaticName(index), "D=A"], Translator.GetPushD());
    assert ["@" + StaticName(index), "D=A"] + [""] == ["@" + StaticName(index), "D=A", ""];
    StaticHeadEffect(index, s);
    Translator.PushDEffect(s.(a := addr, d := addr));
    RunSeq(["@" + StaticName(index), "D=A"], Translator.GetPushD(), s, s.(a := addr, d := addr),
           s.(a := SP, d := addr, ram := s.ram[Mem(s, SP) := addr][SP := Mem(s, SP) + 1]));
  }

  function StaticStage(index: int): seq<string> { ["@" + StaticName(index), "D=A", "@R13", "M=D"] }

  lemma StaticPopPieces(index: int)
    ensures ConstantSeg("pop", "static", index) == Some(StaticStage(index) + Translator.GetPopD())
  {
    assert ["@" + StaticName(index), "D=A"] + [""] == ["@" + StaticName(index), "D=A", ""];
    AfterComma(["@" + StaticName(index), "D=A"], ["@R13", "M=D", ""]);
    assert ["@" + StaticName(index), "D=A"] + ["@R13", "M=D", ""] == StaticStage(index) + [""];
    AfterComma(StaticStage(index), Translator.GetPopD());
  }

  lemma StaticStageEffect(index: int, s: State)
    requires StaticName(index) in s.symbols
    ensures
      var addr := s.symbols[StaticName(index)];
      Run(StaticStage(index), s) == Some(s.(a := R13, d := addr, ram := s.ram[R13 := addr]))
  {
    var addr := s.symbols[StaticName(index)];
    ExecSymbol(StaticName(index), s);
    var s1 := s.(a := addr);
    RunStep(StaticStage(index), s, s1);
    assert StaticStage(index)[1..] == ["D=A", "@R13", "M=D"];
    var s2 := s1.(d := addr);
    assert Exec("D=A", s1) == Some(s2);
    var s3 := s2.(a := R13);
    assert Exec("@R13", s2) == Some(s3);
    assert Exec("M=D", s3) == Some(s3.(ram := s.ram[R13 := addr]));
    assert Run(["D=A", "@R13", "M=D"], s1) == Some(s3.(ram := s.ram[R13 := addr]));
  }

  /** `pop static i` stages the address of STATIC.i in R13 and pops into D, but
      never stores: besides R13 and SP, no word changes. */
  lemma StaticPopNeverStores(index: int, s: State)
    requires StaticName(index) in s.symbols && Translator.StackAboveRegisters(s)
    ensures ConstantSeg("pop", "static", index).Some?
    ensures
      var addr := s.symbols[StaticName(index)];
      var sp := Mem(s, SP);
      Run(ConstantSeg("pop", "static", index).value, s) ==
        Some(s.(a := sp - 1, d := Mem(s, sp - 1), ram := s.ram[R13 := addr][SP := sp - 1]))
  {
    var addr := s.symbols[StaticName(index)];
    var sp := Mem(s, SP);
    var t := s.(a := R13, d := addr, ram := s.ram[R13 := addr]);
    StaticPopPieces(index);
    StaticStageEffect(index, s);
    assert Mem(t, SP) == sp && Mem(t, sp - 1) == Mem(s, sp - 1);
    Translator.PopDEffect(t);
    RunSeq(StaticStage(index), Translator.GetPopD(), s, t,
           s.(a := sp - 1, d := Mem(s, sp - 1), ram := s.ram[R13 := addr][SP := sp - 1]));
  }

  /** The static branch of constantSeg as the VM language defines `static i`: the
      variable is the word the assembler gives STATIC.i; push loads it with
      `D=M`, and pop stages its address in R13 and stores through it, as
      pointerSeg does. */
  function StaticSegIntended(push: string, index: int): (r: Frag)
    // Every branch addresses the variable first and ends its text with a comma.
    ensures |r| >= 3 && r[0] == "@" + StaticName(index) && r[|r| - 1] == ""
  {
    var name := StaticName(index);
    Translator.GetPushDShape();
    Translator.GetPopDShape();
    if push == "push" then Concat(["@" + name, "D=M", ""], Translator.GetPushD())
    else if push == "pop" then
      Concat(Concat(["@" + name, "D=A", "@R13", "M=D", ""], Translator.GetPopD()), Translator.StoreThroughR13())
    else ["@" + name, "D=A", ""]
  }

  lemma StaticIntendedPushPieces(index: int)
    ensures StaticSegIntended("push", index) == ["@" + StaticName(index), "D=M"] + Translator.GetPushD()
  {
    var x := ["@" + StaticName(index), "D=M"];
    AfterComma(x, Translator.GetPushD());
    assert x + [""] == ["@" + StaticName(index), "D=M", ""];
  }

  lemma StaticIntendedPopPieces(index: int)
    ensures StaticSegIntended("pop", index) ==
      StaticStage(index) + (Translator.PopLines() + Translator.StoreThroughR13())
  {
    var x := StaticStage(index);
    assert ["@" + StaticName(index), "D=A", "@R13", "M=D", ""] == x + [""];
    AfterComma(x, Translator.GetPopD());
    Translator.PopDText();
    AppendAfterComma(x, Translator.PopLines(), Translator.StoreThroughR13());
  }

  lemma LoadStaticEffect(index: int, s: State)
    requires StaticName(index) in s.symbols
    ensures
      var addr := s.symbols[StaticName(index)];
      Run(["@" + StaticName(index), "D=M"], s) == Some(s.(a := addr, d := Mem(s, addr)))
  {
    var addr := s.symbols[StaticName(index)];
    ExecSymbol(StaticName(index), s);
    var s1 := s.(a := addr);
    assert Exec("D=M", s1) == Some(s1.(d := Mem(s, addr)));
    RunStep(["@" + StaticName(index), "D=M"], s, s1);
    assert ["@" + StaticName(index), "D=M"][1..] == ["D=M"];
  }

  /** The intended `push static i` pushes the word stored at STATIC.i. */
  lemma StaticIntendedPushEffect(index: int, s: State)
    requires StaticName(index) in s.symbols && Mem(s, SP) != SP
    ensures
      var v := Mem(s, s.symbols[StaticName(index)]);
      Run(StaticSegIntended("push", index), s) ==
        Some(s.(a := SP, d := v, ram := s.ram[Mem(s, SP) := v][SP := Mem(s, SP) + 1]))
  {
    var addr := s.symbols[StaticName(index)];
    var v := Mem(s, addr);
    StaticIntendedPushPieces(index);
    LoadStaticEffect(index, s);
    Translator.PushDEffect(s.(a := addr, d := v));
    RunSeq(["@" + StaticName(index), "D=M"], Translator.GetPushD(), s, s.(a := addr, d := v),
           s.(a := SP, d := v, ram := s.ram[Mem(s, SP) := v][SP := Mem(s, SP) + 1]));
  }

  /** The intended `pop static i` stores the old top at STATIC.i and moves SP down. */
  lemma StaticIntendedPopEffect(index: int, s: State)
    requires StaticName(index) in s.symbols && Translator.StackAboveRegisters(s)
    ensures
      var addr := s.symbols[StaticName(index)];
      var sp := Mem(s, SP);
      var top := Mem(s, sp - 1);
      Run(StaticSegIntended("pop", index), s) ==
        Some(s.(a := addr, d := top, ram := s.ram[R13 := addr][SP := sp - 1][addr := top]))
  {
    var addr := s.symbols[StaticName(index)];
    var sp := Mem(s, SP);
    var t := s.(a := R13, d := addr, ram := s.ram[R13 := addr]);
    StaticIntendedPopPieces(index);
    StaticStageEffect(index, s);
    assert Mem(t, SP) == sp && Mem(t, sp - 1) == Mem(s, sp - 1) && Mem(t, R13) == addr;
    Translator.PopThroughR13(t);
    RunSeq(StaticStage(index), Translator.PopLines() + Translator.StoreThroughR13(), s, t,
           s.(a := addr, d := Mem(s, sp - 1), ram := s.ram[R13 := addr][SP := sp - 1][addr := Mem(s, sp - 1)]));
  }

  /** Pushing a static variable and popping it back restores the variable and SP,
      provided the assembler did not place STATIC.i on the stack pointer itself. */
  lemma StaticIntendedRoundTrip(index: int, s: State)
    requires StaticName(index) in s.symbols && s.symbols[StaticName(index)] != SP
    requires Translator.StackAboveRegisters(s)
    ensures
      var addr := s.symbols[StaticName(index)];
      var t := Run(StaticSegIntended("push", index), s);
      t.Some? &&
      var u := Run(StaticSegIntended("pop", index), t.value);
      u.Some? && Mem(u.value, SP) == Mem(s, SP) && Mem(u.value, addr) == Mem(s, addr)
  {
    var sp := Mem(s, SP);
    var v := Mem(s, s.symbols[StaticName(index)]);
    StaticIntendedPushEffect(index, s);
    var t := s.(a := SP, d := v, ram := s.ram[sp := v][SP := sp + 1]);
    assert Translator.StackAboveRegisters(t) && Mem(t, Mem(t, SP) - 1) == v;
    StaticIntendedPopEffect(index, t);
  }

  // ---------------------------------------------------------------------------
  // line2Command.

  /** line2Command: None for a blank line or a whole-line comment; otherwise the
      text before the first `//`, stripped. */
  function Line2Command(line: string): (r: Option<string>)
    ensures r.None? <==> Strip(line) == [] || StartsWith(Strip(line), "//")
    ensures r.Some? ==> r.value != [] && Trimmed(r.value) && !HasComment(r.value)
  {
    var t := Strip(line);
    if t == [] || StartsWith(t, "//") then None
    else
      CommandText(t);
      Some(Strip(t[..CommentStart(t)]))
  }

  /** What is left of a stripped line that does not start with `//` once its
      comment is cut off is non-empty and comment-free. */
  lemma CommandText(t: string)
    requires t != [] && Trimmed(t) && !StartsWith(t, "//")
    ensures CommentStart(t) > 0
    ensures Strip(t[..CommentStart(t)]) != [] && !HasComment(Strip(t[..CommentStart(t)]))
  {
    CommentStartPositive(t);
    CommandTextAt(t, CommentStart(t));
  }

  lemma CommentStartPositive(t: string)
    requires t != [] && !StartsWith(t, "//")
    ensures CommentStart(t) > 0
  {
    assert |t| < 2 || t[0] != '/' || t[1] != '/' by {
      if |t| >= 2 {
        assert t[..2][0] == t[0] && t[..2][1] == t[1];
      }
    }
  }

  lemma CommandTextAt(t: string, k: nat)
    requires 0 < k <= |t| && !IsSpace(t[0]) && !HasComment(t[..k])
    ensures Strip(t[..k]) != [] && !HasComment(Strip(t[..k]))
  {
    var v := t[..k];
    assert v[0] == t[0];
    StripSlice(v);
    NoCommentInSlice(v, |v| - |StripStart(v)|, |Strip(v)|);
  }

  /** line2Command leaves its own results as they are. */
  lemma Line2CommandIdempotent(line: string)
    requires Line2Command(line).Some?
    ensures Line2Command(Line2Command(line).value) == Line2Command(line)
  {
    var u := Line2Command(line).value;
    StripTrimmed(u);
    CommentStartNone(u);
    assert u[..|u|] == u;
    assert |u| < 2 || !(u[0] == '/' && u[1] == '/');
    assert !StartsWith(u, "//") by {
      if |u| >= 2 {
        assert u[..2][0] == u[0] && u[..2][1] == u[1];
      }
    }
  }

  /** A command that is already clean comes back as it is: line2Command keeps
      the text of the line and only removes what surrounds it. */
  lemma Line2CommandKeeps(line: string)
    requires line != [] && Trimmed(line) && !HasComment(line)
    ensures Line2Command(line) == Some(line)
  {
    StripTrimmed(line);
    CommentStartNone(line);
    assert line[..|line|] == line;
    assert !StartsWith(line, "//") by {
      if |line| >= 2 {
        assert line[..2][0] == line[0] && line[..2][1] == line[1];
      }
    }
  }

  /** What may follow a command on its line: whitespace, possibly with a `//` comment. */
  predicate BlankOrComment(s: string) {
    Strip(s) == [] || StartsWith(Strip(s), "//")
  }

  /** The cleaned command is the line's own text: it starts where the line's
      leading whitespace ends, and what follows it is whitespace, possibly with
      a `//` comment. It stops before the first `//`: with the next character
      added it still holds none. */
  lemma Line2CommandText(line: string, v: string) returns (i: nat)
    requires Line2Command(line) == Some(v)
    ensures i == |line| - |StripStart(line)|
    ensures forall j :: 0 <= j < i ==> IsSpace(line[j])
    ensures i + |v| <= |line| && v == line[i..i + |v|] && BlankOrComment(line[i + |v|..])
    ensures i + |v| < |line| ==> !HasComment(line[i..i + |v| + 1])
  {
    var t := Strip(line);
    i := |line| - |StripStart(line)|;
    StripSliceAt(line, i);
    assert t != [] && !StartsWith(t, "//") && v == Strip(t[..CommentStart(t)]);
    CommandSpan(line, i, t, v);
  }

  /** Where the command sits in a line whose stripped text `t` starts at `i`. */
  lemma CommandSpan(line: string, i: nat, t: string, v: string)
    requires t != [] && Trimmed(t) && !StartsWith(t, "//")
    requires i + |t| <= |line| && t == line[i..i + |t|]
    requires forall j :: i + |t| <= j < |line| ==> IsSpace(line[j])
    requires v == Strip(t[..CommentStart(t)])
    ensures i + |v| <= |line| && v == line[i..i + |v|] && BlankOrComment(line[i + |v|..])
    ensures i + |v| < |line| ==> !HasComment(line[i..i + |v| + 1])
  {
    var k := CommentStart(t);
    CommandText(t);
    CommandPrefix(t, k);
    assert |v| <= |t| && v == t[..|v|];
    PrefixOfSlice(line, i, t, v);
    CommandRest(line, i, t, k, v);
    CommandEnd(line, i, t, k, v);
  }

  /** The command and the character after it hold no `//`: that character is
      whitespace or the first `/` of the first `//`. */
  lemma CommandEnd(line: string, i: nat, t: string, k: nat, v: string)
    requires i + |t| <= |line| && t == line[i..i + |t|]
    requires forall j :: i + |t| <= j < |line| ==> IsSpace(line[j])
    requires 0 < k <= |t| && !HasComment(t[..k]) && (k < |t| ==> !HasComment(t[..k + 1]))
    requires |v| <= k && v == t[..|v|] && forall j :: |v| <= j < k ==> IsSpace(t[j])
    ensures i + |v| < |line| ==> !HasComment(line[i..i + |v| + 1])
  {
    if i + |v| < |line| {
      var u := line[i..i + |v| + 1];
      if |v| < |t| {
        assert u == t[..|v| + 1];
        if |v| < k {
          NoCommentInSlice(t[..k], 0, |v| + 1);
          assert t[..k][0..|v| + 1] == t[..|v| + 1];
        }
      } else {
        assert u == v + [line[i + |v|]];
        assert v == t[..k];
        NoCommentSnoc(v, line[i + |v|]);
      }
    }
  }

  /** A prefix of a slice is a slice. */
  lemma PrefixOfSlice(line: string, i: nat, t: string, v: string)
    requires i + |t| <= |line| && t == line[i..i + |t|] && |v| <= |t| && v == t[..|v|]
    ensures i + |v| <= |line| && v == line[i..i + |v|]
  {
    forall j | 0 <= j < |v| ensures v[j] == line[i + j] {
      assert v[j] == t[j];
    }
  }

  /** The command starts at the first character of the stripped line and stops
      before the whitespace ahead of the comment. */
  lemma CommandPrefix(t: string, k: nat)
    requires 0 < k <= |t| && !IsSpace(t[0])
    ensures
      var v := Strip(t[..k]);
      |v| <= k && v == t[..|v|] && forall j :: |v| <= j < k ==> IsSpace(t[j])
  {
    var u := t[..k];
    assert u[0] == t[0];
    SkipSpaceAt(u, 0, 0);
    assert StripStart(u) == u;
    var v := StripEnd(u);
    forall j | |v| <= j < k ensures IsSpace(t[j]) {
      assert u[j] == t[j];
    }
  }

  /** The rest of a line from inside one of its slices, cut at a second point. */
  lemma SuffixThrough(line: string, i: nat, t: string, p: nat, k: nat)
    requires i + |t| <= |line| && t == line[i..i + |t|] && p <= k <= |t|
    ensures line[i + p..] == t[p..k] + t[k..] + line[i + |t|..]
  {
    var r := t[p..k] + t[k..] + line[i + |t|..];
    assert |r| == |line| - (i + p);
    forall j | 0 <= j < |r| ensures r[j] == line[i + p + j] {
      if j < |t| - p {
        assert r[j] == t[p + j];
      } else {
        assert r[j] == line[i + |t| + (j - (|t| - p))];
      }
    }
  }

  /** What follows the command in the line strips to nothing or to the comment. */
  lemma CommandRest(line: string, i: nat, t: string, k: nat, v: string)
    requires i + |t| <= |line| && t == line[i..i + |t|] && Trimmed(t)
    requires forall j :: i + |t| <= j < |line| ==> IsSpace(line[j])
    requires 0 < k <= |t| && (k < |t| ==> k + 1 < |t| && t[k] == '/' && t[k + 1] == '/')
    requires |v| <= k && v == t[..|v|] && forall j :: |v| <= j < k ==> IsSpace(t[j])
    ensures BlankOrComment(line[i + |v|..])
  {
    var a := t[|v|..k];
    var w := t[k..];
    var c := line[i + |t|..];
    assert line[i + |v|..] == a + w + c by {
      SuffixThrough(line, i, t, |v|, k);
    }
    assert forall j :: 0 <= j < |a| ==> IsSpace(a[j]) by {
      SpaceSlice(t, |v|, k);
    }
    assert forall j :: 0 <= j < |c| ==> IsSpace(c[j]) by {
      SpaceSlice(line, i + |t|, |line|);
      assert c == line[i + |t|..|line|];
    }
    assert w == [] || (|w| >= 2 && w[0] == '/' && w[1] == '/' && !IsSpace(w[|w| - 1])) by {
      CommentTail(t, k);
    }
    PaddedBlankOrComment(line[i + |v|..], a, w, c);
  }

  /** A run of whitespace, cut out of a string, is whitespace. */
  lemma SpaceSlice(s: string, p: nat, q: nat)
    requires p <= q <= |s| && forall j :: p <= j < q ==> IsSpace(s[j])
    ensures forall j :: 0 <= j < q - p ==> IsSpace(s[p..q][j])
  {
    forall j | 0 <= j < q - p ensures IsSpace(s[p..q][j]) {
      assert s[p..q][j] == s[p + j];
    }
  }

  /** What the comment cut leaves of a stripped line: nothing, or a `//`
      comment that ends in a non-space. */
  lemma CommentTail(t: string, k: nat)
    requires Trimmed(t) && k <= |t| && (k < |t| ==> k + 1 < |t| && t[k] == '/' && t[k + 1] == '/')
    ensures var w := t[k..];
      w == [] || (|w| >= 2 && w[0] == '/' && w[1] == '/' && !IsSpace(w[|w| - 1]))
  {
    if k < |t| {
      assert t[k..][0] == t[k] && t[k..][1] == t[k + 1];
      assert t[k..][|t| - k - 1] == t[|t| - 1];
    }
  }

  /** A comment, or nothing, between two runs of whitespace strips to itself. */
  lemma PaddedBlankOrComment(s: string, a: string, w: string, c: string)
    requires s == a + w + c
    requires forall j :: 0 <= j < |a| ==> IsSpace(a[j])
    requires forall j :: 0 <= j < |c| ==> IsSpace(c[j])
    requires w == [] || (|w| >= 2 && w[0] == '/' && w[1] == '/' && !IsSpace(w[|w| - 1]))
    ensures BlankOrComment(s)
  {
    if w == [] {
      PaddedBlank(s, a, c);
    } else {
      PaddedComment(s, a, w, c);
    }
  }

  lemma PaddedBlank(s: string, a: string, c: string)
    requires s == a + c
    requires forall j :: 0 <= j < |a| ==> IsSpace(a[j])
    requires forall j :: 0 <= j < |c| ==> IsSpace(c[j])
    ensures Strip(s) == []
  {
    forall j | 0 <= j < |s| ensures IsSpace(s[j]) {
      if j < |a| {
        assert s[j] == a[j];
      } else {
        assert s[j] == c[j - |a|];
      }
    }
  }

  lemma PaddedComment(s: string, a: string, w: string, c: string)
    requires s == a + w + c
    requires forall j :: 0 <= j < |a| ==> IsSpace(a[j])
    requires forall j :: 0 <= j < |c| ==> IsSpace(c[j])
    requires |w| >= 2 && w[0] == '/' && w[1] == '/' && !IsSpace(w[|w| - 1])
    ensures StartsWith(Strip(s), "//")
  {
    assert w[..2] == "//";
    StripPadded(a, w, c);
    assert Strip(s) == w;
  }

  // ---------------------------------------------------------------------------
  // uniqueLabel and its counter.

  /** The label text uniqueLabel builds from counter value n. */
  function LabelAsWritten(n: nat): (l: string)
    ensures |l| > 1 && l[0] == '@' && l[1..] == Label(n)
  {
    var l := "@temp" + NatStr(n);
    assert l == "@" + Label(n);
    l
  }

  /** The label the callers need: a plain symbol, usable both in `(label)` and
      after `@`. */
  function Label(n: nat): (l: string)
    ensures IsSymbol(l)
  {
    var l := "temp" + NatStr(n);
    assert forall i :: 4 <= i < |l| ==> l[i] == NatStr(n)[i - 4];
    l
  }

  /** Distinct counter values give distinct labels. */
  lemma LabelInjective(m: nat, n: nat)
    ensures Label(m) == Label(n) <==> m == n
  {
    if Label(m) == Label(n) {
      assert NatStr(m) == Label(m)[4..] && NatStr(n) == Label(n)[4..];
      StrInjective(m, n);
    }
  }

  /** The halt loop `(l)`, `@l`, `0;JMP` that ParseFile appends. */
  function HaltLoop(l: string): Frag {
    Concat(["(" + l + ")"], ["", "@" + l, "0;JMP"])
  }

  lemma HaltLoopLines(l: string)
    ensures HaltLoop(l) == ["(" + l + ")", "@" + l, "0;JMP"]
  {
    assert HaltLoop(l) == [] + [("(" + l + ")") + ""] + ["@" + l, "0;JMP"];
    assert ("(" + l + ")") + "" == "(" + l + ")";
  }

  /** With the label as written, the halt loop defines `(@tempN)` and jumps via
      `@@tempN`: neither names a Hack symbol. */
  lemma HaltLoopAsWritten(n: nat)
    ensures HaltLoop(LabelAsWritten(n))[0] == "(@temp" + NatStr(n) + ")"
    ensures HaltLoop(LabelAsWritten(n))[1] == "@@temp" + NatStr(n)
    ensures !IsSymbol(LabelAsWritten(n)) && !IsSymbol(HaltLoop(LabelAsWritten(n))[1][1..])
  {
    var l := LabelAsWritten(n);
    HaltLoopLines(l);
    assert !SymbolChar(l[0]);
    assert HaltLoop(l)[1][1..] == l;
  }

  /** With the plain label, the halt loop defines a symbol and jumps to it. */
  lemma HaltLoopWellFormed(n: nat)
    ensures
      var l := Label(n);
      IsSymbol(l) && HaltLoop(l) == ["(" + l + ")", "@" + l, "0;JMP"]
  {
    HaltLoopLines(Label(n));
  }

  /** Where LABEL_NUMBER lives when uniqueLabel runs. As written, the assignment
      on its last line makes the name local to the function (`Local`), so the
      read before it fails; with `global LABEL_NUMBER` it is the module-level
      counter (`Global`). */
  datatype Counter = Local | Global(n: nat)

  /** uniqueLabel: the next label and the counter after it. */
  function NextLabel(c: Counter): (r: Result<(string, Counter)>)
    ensures r.Err? <==> c.Local?
    ensures r.Ok? ==> IsSymbol(r.value.0) && r.value.1.Global? && r.value.1.n == c.n + 1
  {
    match c
    case Local => Err(UnboundLocalError("LABEL_NUMBER"))
    case Global(n) => Ok((Label(n), Global(n + 1)))
  }

  /** Labels drawn one after the other from the same counter are pairwise
      distinct. */
  lemma LabelsDistinct(n: nat, k: nat)
    requires k > 0
    ensures NextLabel(Global(n)).Ok? && NextLabel(Global(n + k)).Ok?
    ensures NextLabel(Global(n)).value.0 != NextLabel(Global(n + k)).value.0
  {
    LabelInjective(n, n + k);
  }

  // ---------------------------------------------------------------------------
  // ParseFile.

  /** `[x.strip() for x in command.split()]`: one argument per word. */
  function Args(command: string): (args: seq<string>)
    ensures |args| == |Words(command)|
  {
    var w := Words(command);
    seq(|w|, i requires 0 <= i < |w| => Strip(w[i]))
  }

  /** The `strip()` in Args changes nothing: `split()` already yields the words
      without whitespace, so every argument is a non-empty, space-free word. */
  lemma ArgsAreWords(command: string)
    ensures Args(command) == Words(command)
    ensures forall i :: 0 <= i < |Args(command)| ==> IsWord(Args(command)[i])
  {
    var w := Words(command);
    WordsTrimmed(command);
    forall i | 0 <= i < |w| ensures Strip(w[i]) == w[i] {
      assert IsWord(w[i]);
      StripTrimmed(w[i]);
    }
  }

  /** The branch of ParseFile's `if` chain a command takes. */
  datatype Kind =
    | Binary(op: string)
    | Unary(op: string)
    | Comparison(op: string)
    | Segment(pushpop: string, seg: string)

  /** The tests of ParseFile in order. `args[0]` of an empty list and `args[1]`
      of a one-word command raise IndexError; a command no test accepts ends
      the program through `sys.exit(-1)`. */
  function Classify(args: seq<string>): (r: Result<Kind>)
    ensures r.Ok? && r.value.Binary? ==> r.value.op in ARITH_BINARY
    ensures r.Ok? && r.value.Unary? ==> r.value.op in ARITH_UNARY
    ensures r.Ok? && r.value.Comparison? ==> r.value.op in ARITH_TEST
    // ARITH_BINARY catches every comparison first: the branch that would take
    // fresh labels is never reached.
    ensures r.Ok? ==> !r.value.Comparison?
    // The `else` branch: the first word is in no table and the second names no segment.
    ensures r == Err(Exit(-1, args)) <==>
      |args| >= 2 && args[0] !in ARITH_BINARY && args[0] !in ARITH_UNARY && args[0] !in ARITH_TEST &&
      args[1] !in SEGMENTS
  {
    if |args| == 0 then Err(IndexError)
    else
    var op := args[0];
    if op in ARITH_BINARY then Ok(Binary(op))
    else if op in ARITH_UNARY then Ok(Unary(op))
    else if op in ARITH_TEST then Ok(Comparison(op))
    else if |args| < 2 then Err(IndexError)
    else if args[1] in SEGMENTS then Ok(Segment(args[0], args[1]))
    else Err(Exit(-1, args))
  }

  /** Classify's other outcomes: a recognised command is classified by the first
      table that holds its first word, and only the two indexings fail with
      IndexError. */
  lemma ClassifyCases(args: seq<string>)
    ensures |args| >= 1 && args[0] in ARITH_BINARY ==> Classify(args) == Ok(Binary(args[0]))
    ensures |args| >= 1 && args[0] !in ARITH_BINARY && args[0] in ARITH_UNARY ==>
      Classify(args) == Ok(Unary(args[0]))
    ensures (|args| >= 2 && args[0] !in ARITH_BINARY && args[0] !in ARITH_UNARY && args[0] !in ARITH_TEST &&
             args[1] in SEGMENTS) ==> Classify(args) == Ok(Segment(args[0], args[1]))
    ensures Classify(args) == Err(IndexError) <==>
      |args| == 0 ||
      (|args| == 1 && args[0] !in ARITH_BINARY && args[0] !in ARITH_UNARY && args[0] !in ARITH_TEST)
  {
  }

  /** The relabelling in the comparison branch: `.replace("isGT", t).replace("endGT", f)`,
      applied line by line (neither pattern contains a comma). */
  function Relabel(f: Frag, t: string, e: string): (r: Frag)
    ensures |r| == |f|
  {
    seq(|f|, i requires 0 <= i < |f| => Replace(Replace(f[i], "isGT", t), "endGT", e))
  }

  /** Relabelling with symbols creates no comma. */
  lemma RelabelValid(f: Frag, t: string, e: string)
    requires Valid(f) && IsSymbol(t) && IsSymbol(e)
    ensures Valid(Relabel(f, t, e))
  {
    assert forall i :: 0 <= i < |t| ==> t[i] != ',';
    assert forall i :: 0 <= i < |e| ==> e[i] != ',';
    forall i | 0 <= i < |f| ensures ',' !in Relabel(f, t, e)[i] {
      ReplaceKeepsOut(f[i], "isGT", t, ',');
      ReplaceKeepsOut(Replace(f[i], "isGT", t), "endGT", e, ',');
    }
  }

  /** The relabelling leaves `eq` and `lt` untouched: their labels are not
      the ones it looks for. */
  lemma RelabelOnlyGt(op: string, t: string, e: string)
    requires op == "eq" || op == "lt"
    ensures op in ARITH_TEST && Relabel(ARITH_TEST[op], t, e) == ARITH_TEST[op]
  {
    var f := ARITH_TEST[op];
    forall i | 0 <= i < |f| ensures Replace(Replace(f[i], "isGT", t), "endGT", e) == f[i] {
      assert 'G' !in f[i];
      ReplaceAbsent(f[i], "isGT", t, 'G');
      ReplaceAbsent(f[i], "endGT", e, 'G');
    }
  }

  /** Every entry of the three tables is comma-free text. */
  lemma TablesValid(op: string)
    ensures op in ARITH_BINARY ==> Valid(ARITH_BINARY[op])
    ensures op in ARITH_UNARY ==> Valid(ARITH_UNARY[op])
    ensures op in ARITH_TEST ==> Valid(ARITH_TEST[op])
  {
    ArithmeticEntriesValid();
    ComparisonEntriesValid();
  }

  lemma ArithmeticEntriesValid()
    ensures Valid(AddCode()) && Valid(SubCode()) && Valid(AndCode()) && Valid(OrCode())
    ensures Valid(NegCode()) && Valid(NotCode())
  {
  }

  lemma ComparisonEntriesValid()
    ensures Valid(GtCode()) && Valid(EqCode()) && Valid(LtCode())
  {
  }

  /** The comparison branch: two fresh labels, substituted into the template. */
  function ComparisonCode(op: string, c: Counter): (r: Result<(Option<Frag>, Counter)>)
    requires op in ARITH_TEST
    ensures r.Ok? ==> r.value.0.Some? && Valid(r.value.0.value)
  {
    match NextLabel(c)
    case Err(e) => Err(e)
    case Ok((t, c1)) =>
      match NextLabel(c1)
      case Err(e) => Err(e)
      case Ok((f, c2)) =>
        TablesValid(op);
        RelabelValid(ARITH_TEST[op], t, f);
        Ok((Some(Relabel(ARITH_TEST[op], t, f)), c2))
  }

  /** The code one line adds to the output (None: nothing), and the counter after it. */
  function LineCode(line: string, c: Counter): (r: Result<(Option<Frag>, Counter)>)
    ensures r.Ok? && r.value.0.Some? ==> Valid(r.value.0.value)
    ensures r.Ok? ==> r.value.1 == c
  {
    var command := Line2Command(line);
    if command.None? || command.value == [] then Ok((None, c))
    else CommandCode(command.value, c)
  }

  /** The code of a command, split into words and classified. */
  function CommandCode(command: string, c: Counter): (r: Result<(Option<Frag>, Counter)>)
    ensures r.Ok? && r.value.0.Some? ==> Valid(r.value.0.value)
    ensures r.Ok? ==> r.value.1 == c
  {
    var kind := Classify(Args(command));
    if kind.Err? then Err(kind.error)
    else KindCode(kind.value, c)
  }

  /** The code of one classified command. */
  function KindCode(k: Kind, c: Counter): (r: Result<(Option<Frag>, Counter)>)
    requires k.Binary? ==> k.op in ARITH_BINARY
    requires k.Unary? ==> k.op in ARITH_UNARY
    requires k.Comparison? ==> k.op in ARITH_TEST
    ensures r.Ok? && r.value.0.Some? ==> Valid(r.value.0.value)
    ensures r.Ok? && !k.Comparison? ==> r.value.1 == c
  {
    match k
    case Binary(op) => TablesValid(op); Ok((Some(ARITH_BINARY[op]), c))
    case Unary(op) => TablesValid(op); Ok((Some(ARITH_UNARY[op]), c))
    case Comparison(op) => ComparisonCode(op, c)
    case Segment(pushpop, seg) =>
      if pushpop == "push" || pushpop == "pop" then Err(TypeError) else Ok((None, c))
  }

  /** A line whose first word is a key of ARITH_BINARY (the four operations and
      the three comparisons) contributes that table's entry, and keeps the counter. */
  lemma BinaryLine(line: string, c: Counter)
    requires Line2Command(line).Some? && Line2Command(line).value != []
    requires Args(Line2Command(line).value)[0] in ARITH_BINARY
    ensures LineCode(line, c) == Ok((Some(ARITH_BINARY[Args(Line2Command(line).value)[0]]), c))
  {
    var command := Line2Command(line).value;
    BinaryCommand(command, Args(command), c);
  }

  /** BinaryLine for the command that line2Command returns. */
  lemma BinaryCommand(command: string, args: seq<string>, c: Counter)
    requires args == Args(command) && |args| > 0 && args[0] in ARITH_BINARY
    ensures CommandCode(command, c) == Ok((Some(ARITH_BINARY[args[0]]), c))
  {
    ClassifyCases(args);
  }

  /** A line whose first word is `neg` or `not` contributes that ARITH_UNARY entry. */
  lemma UnaryLine(line: string, c: Counter)
    requires Line2Command(line).Some? && Line2Command(line).value != []
    requires Args(Line2Command(line).value)[0] in ARITH_UNARY
    ensures LineCode(line, c) == Ok((Some(ARITH_UNARY[Args(Line2Command(line).value)[0]]), c))
  {
    var command := Line2Command(line).value;
    UnaryCommand(command, Args(command), c);
  }

  /** UnaryLine for the command that line2Command returns. */
  lemma UnaryCommand(command: string, args: seq<string>, c: Counter)
    requires args == Args(command) && |args| > 0 && args[0] in ARITH_UNARY
    ensures CommandCode(command, c) == Ok((Some(ARITH_UNARY[args[0]]), c))
  {
    UnaryNotBinary(args[0]);
    ClassifyCases(args);
  }

  /** The keys of ARITH_UNARY are in neither of the other tables. */
  lemma UnaryNotBinary(op: string)
    requires op in ARITH_UNARY
    ensures op !in ARITH_BINARY && op !in ARITH_TEST
  {
  }

  /** A `push` or `pop` of a known segment stops the run with TypeError (the
      segment entry is a string, not a function); any other first word before a
      segment name adds nothing. */
  lemma SegmentLine(line: string, c: Counter)
    requires Line2Command(line).Some?
    requires var args := Args(Line2Command(line).value);
      |args| >= 2 && args[1] in SEGMENTS &&
      args[0] !in ARITH_BINARY && args[0] !in ARITH_UNARY && args[0] !in ARITH_TEST
    ensures var args := Args(Line2Command(line).value);
      LineCode(line, c) == if args[0] == "push" || args[0] == "pop" then Err(TypeError) else Ok((None, c))
  {
    var command := Line2Command(line).value;
    SegmentCommand(command, Args(command), c);
  }

  /** SegmentLine for the command that line2Command returns; such a command is not empty. */
  lemma SegmentCommand(command: string, args: seq<string>, c: Counter)
    requires args == Args(command) && |args| >= 2 && args[1] in SEGMENTS
    requires args[0] !in ARITH_BINARY && args[0] !in ARITH_UNARY && args[0] !in ARITH_TEST
    ensures command != []
    ensures CommandCode(command, c) == if args[0] == "push" || args[0] == "pop" then Err(TypeError) else Ok((None, c))
  {
    ClassifyCases(args);
  }

  /** A text the loop can extend: comma-free pieces, and empty or ending in a comma. */
  predicate Open(out: Frag) {
    Valid(out) && out[|out| - 1] == ""
  }

  /** One pass of ParseFile's loop: `outString = outString + code + ","`. */
  function Step(out: Frag, c: Counter, line: string): (r: Result<(Frag, Counter)>)
    requires Open(out)
    ensures r.Ok? ==> Open(r.value.0)
  {
    var lc := LineCode(line, c);
    if lc.Err? then Err(lc.error)
    else if lc.value.0.None? then Ok((out, lc.value.1))
    else
      var code := lc.value.0.value;
      AppendComma(out, code);
      Ok((Concat(Concat(out, code), Comma), lc.value.1))
  }

  /** ParseFile's loop over the lines, from text `out` and counter `c`. */
  function Translate(lines: seq<string>, out: Frag, c: Counter): (r: Result<(Frag, Counter)>)
    requires Open(out)
    ensures r.Ok? ==> Open(r.value.0)
    decreases |lines|
  {
    if lines == [] then Ok((out, c))
    else
      match Step(out, c, lines[0])
      case Err(e) => Err(e)
      case Ok((o, c1)) => Translate(lines[1..], o, c1)
  }

  /** ParseFile's result: the loop, the halt loop with one more label, and the
      rewriting of commas into line breaks; or the error that ends the run. */
  function Output(lines: seq<string>, c: Counter): (r: Result<seq<string>>)
    // Text comes back exactly when every line gets through and uniqueLabel can
    // read its counter; otherwise the first line's error wins over the counter's.
    ensures r.Ok? <==> Translate(lines, Empty, c).Ok? && c.Global?
    ensures Translate(lines, Empty, c).Err? ==> r == Err(Translate(lines, Empty, c).error)
  {
    TranslateCounter(lines, Empty, c);
    match Translate(lines, Empty, c)
    case Err(e) => Err(e)
    case Ok((out, c1)) =>
      match NextLabel(c1)
      case Err(e) => Err(e)
      case Ok((l, _)) => Ok(Translator.Render(Concat(out, HaltLoop(l))))
  }

  /** No line reaches the comparison branch, so the loop never moves the counter. */
  lemma {:induction false} TranslateCounter(lines: seq<string>, out: Frag, c: Counter)
    requires Open(out)
    ensures Translate(lines, out, c).Ok? ==> Translate(lines, out, c).value.1 == c
    decreases |lines|
  {
    if lines != [] {
      match Step(out, c, lines[0])
      case Err(_) =>
      case Ok((o, c1)) => TranslateCounter(lines[1..], o, c1);
    }
  }

  /** As written, ParseFile never returns: either a line raises, or the final
      uniqueLabel() call reads the local LABEL_NUMBER before assigning it. */
  lemma AsWrittenAlwaysFails(lines: seq<string>)
    ensures Output(lines, Local).Err?
    ensures Translate(lines, Empty, Local).Ok? ==>
      Output(lines, Local) == Err(UnboundLocalError("LABEL_NUMBER"))
  {
    TranslateCounter(lines, Empty, Local);
  }

  /** A symbol holds neither a space nor a comma. */
  lemma SymbolPlain(l: string)
    requires IsSymbol(l)
    ensures ' ' !in l && ',' !in l
  {
    assert forall i :: 0 <= i < |l| ==> l[i] != ' ' && l[i] != ',';
  }

  /** The halt loop closes an open text: its three lines follow the text's
      last comma. */
  lemma CloseWithHalt(out: Frag, l: string)
    requires Open(out) && IsSymbol(l)
    ensures Concat(out, HaltLoop(l)) == out[..|out| - 1] + ["(" + l + ")", "@" + l, "0;JMP"]
    ensures Valid(Concat(out, HaltLoop(l)))
  {
    var halt := ["(" + l + ")", "@" + l, "0;JMP"];
    HaltLoopLines(l);
    AfterComma(out[..|out| - 1], halt);
    assert out[..|out| - 1] + [""] == out;
    SymbolPlain(l);
    assert Valid(halt);
    ConcatValid(out, halt);
  }

  /** Closing an open text with the halt loop on a symbol and rendering it:
      the last three lines are the loop, and no line holds a space or a comma. */
  lemma RenderHalt(out: Frag, l: string)
    requires Open(out) && IsSymbol(l)
    ensures
      var r := Translator.Render(Concat(out, HaltLoop(l)));
      |r| == |out| + 2 && r[|r| - 3..] == ["(" + l + ")", "@" + l, "0;JMP"]
    ensures
      var r := Translator.Render(Concat(out, HaltLoop(l)));
      forall i :: 0 <= i < |r| ==> ' ' !in r[i] && ',' !in r[i]
  {
    CloseWithHalt(out, l);
    SymbolPlain(l);
    var halt := ["(" + l + ")", "@" + l, "0;JMP"];
    var f := Concat(out, HaltLoop(l));
    assert f[|f| - 3..] == halt;
    var r := Translator.Render(f);
    assert ' ' !in halt[0] && ' ' !in halt[1];
    assert r[|r| - 3..] == halt by {
      forall j | 0 <= j < 3 ensures r[|r| - 3 + j] == halt[j] {
        assert f[|f| - 3 + j] == halt[j];
      }
    }
  }

  /** With the counter global, a translation that gets through ends with the
      halt loop on the counter's current label, and no output line holds a
      space or a comma. */
  lemma OutputShape(lines: seq<string>, n: nat)
    requires Output(lines, Global(n)).Ok?
    ensures
      var r := Output(lines, Global(n)).value;
      |r| >= 3 && r[|r| - 3..] == ["(" + Label(n) + ")", "@" + Label(n), "0;JMP"]
    ensures
      var r := Output(lines, Global(n)).value;
      forall i :: 0 <= i < |r| ==> ' ' !in r[i] && ',' !in r[i]
  {
    TranslateCounter(lines, Empty, Global(n));
    var out := Translate(lines, Empty, Global(n)).value.0;
    assert Output(lines, Global(n)) == Ok(Translator.Render(Concat(out, HaltLoop(Label(n)))));
    RenderHalt(out, Label(n));
  }

  /** With the counter global, a translation that gets through returns the text
      the loop built, one line per instruction with its spaces deleted, followed
      by the halt loop on the counter's current label. */
  lemma OutputText(lines: seq<string>, n: nat)
    requires Translate(lines, Empty, Global(n)).Ok?
    ensures
      var out := Translate(lines, Empty, Global(n)).value.0;
      |out| >= 1 && Output(lines, Global(n)) ==
        Ok(Translator.Render(out[..|out| - 1]) + ["(" + Label(n) + ")", "@" + Label(n), "0;JMP"])
  {
    TranslateCounter(lines, Empty, Global(n));
    var out := Translate(lines, Empty, Global(n)).value.0;
    var l := Label(n);
    assert Output(lines, Global(n)) == Ok(Translator.Render(Concat(out, HaltLoop(l))));
    CloseWithHalt(out, l);
    RenderAppendPlain(out[..|out| - 1], ["(" + l + ")", "@" + l, "0;JMP"], l);
  }

  /** Rendering text followed by halt-loop lines, which hold no space. */
  lemma RenderAppendPlain(x: Frag, halt: seq<string>, l: string)
    requires IsSymbol(l) && halt == ["(" + l + ")", "@" + l, "0;JMP"]
    ensures Translator.Render(x + halt) == Translator.Render(x) + halt
  {
    SymbolPlain(l);
    assert ' ' !in halt[0] && ' ' !in halt[1] && ' ' !in halt[2];
    var r := Translator.Render(x + halt);
    forall j | 0 <= j < |r| ensures r[j] == (Translator.Render(x) + halt)[j] {
      if j < |x| {
        assert (x + halt)[j] == x[j];
      } else {
        assert (x + halt)[j] == halt[j - |x|];
      }
    }
  }

  /** An empty file: as written it fails; with a global counter it is the halt
      loop alone. */
  lemma EmptyFile()
    ensures Output([], Local) == Err(UnboundLocalError("LABEL_NUMBER"))
    ensures Output([], Global(0)) == Ok(["(temp0)", "@temp0", "0;JMP"])
  {
    var l := Label(0);
    assert NatStr(0) == "0";
    assert l == "temp0";
    assert "(" + l + ")" == "(temp0)" && "@" + l == "@temp0";
    assert Output([], Global(0)) == Ok(Translator.Render(Concat(Empty, HaltLoop(l))));
    RenderHalt(Empty, l);
    var r := Translator.Render(Concat(Empty, HaltLoop(l)));
    assert r == r[|r| - 3..];
  }

  /** The loop reads the lines in order: translating `a + b` is translating `a`
      and then `b` from where `a` left off. */
  lemma {:induction false} TranslateAppend(a: seq<string>, b: seq<string>, out: Frag, c: Counter)
    requires Open(out)
    ensures Translate(a + b, out, c) ==
      match Translate(a, out, c)
      case Err(e) => Err(e)
      case Ok((o, c1)) => Translate(b, o, c1)
    decreases |a|
  {
    if a == [] {
      assert a + b == b;
    } else {
      assert (a + b)[0] == a[0] && (a + b)[1..] == a[1..] + b;
      match Step(out, c, a[0])
      case Err(_) =>
      case Ok((o, c1)) => TranslateAppend(a[1..], b, o, c1);
    }
  }

  /** The first line that raises or exits ends the run with that outcome,
      whatever follows it. */
  lemma FirstErrorEndsRun(before: seq<string>, line: string, after: seq<string>, c: Counter)
    requires Translate(before, Empty, c).Ok?
    requires LineCode(line, Translate(before, Empty, c).value.1).Err?
    ensures Output(before + ([line] + after), c) ==
      Err(LineCode(line, Translate(before, Empty, c).value.1).error)
  {
    var o := Translate(before, Empty, c).value;
    ErrorLineStops(line, after, o.0, o.1);
    TranslateAfter(before, [line] + after, c);
    FailedTranslation(before + ([line] + after), c);
  }

  /** TranslateAppend from the empty text, once the first part got through. */
  lemma TranslateAfter(a: seq<string>, b: seq<string>, c: Counter)
    requires Translate(a, Empty, c).Ok?
    ensures Translate(a + b, Empty, c) ==
      Translate(b, Translate(a, Empty, c).value.0, Translate(a, Empty, c).value.1)
  {
    TranslateAppend(a, b, Empty, c);
  }

  /** A loop that raises makes ParseFile raise the same. */
  lemma FailedTranslation(lines: seq<string>, c: Counter)
    requires Translate(lines, Empty, c).Err?
    ensures Output(lines, c) == Err(Translate(lines, Empty, c).error)
  {
  }

  lemma ErrorLineStops(line: string, after: seq<string>, out: Frag, c: Counter)
    requires Open(out) && LineCode(line, c).Err?
    ensures Translate([line] + after, out, c) == Err(LineCode(line, c).error)
  {
    assert Step(out, c, line) == Err(LineCode(line, c).error);
    assert ([line] + after)[0] == line;
  }

  /** The loop over the lines from the i-th on, after a pass over line i that got through. */
  lemma TranslateFrom(lines: seq<string>, i: nat, out: Frag, c: Counter)
    requires Open(out) && i < |lines| && Step(out, c, lines[i]).Ok?
    ensures Translate(lines[i..], out, c) ==
      Translate(lines[i + 1..], Step(out, c, lines[i]).value.0, Step(out, c, lines[i]).value.1)
  {
    assert lines[i..][0] == lines[i] && lines[i..][1..] == lines[i + 1..];
  }

  /** A pass over line i that raises ends ParseFile with that error. */
  lemma StopAt(lines: seq<string>, i: nat, out: Frag, c: Counter)
    requires Open(out) && i < |lines| && Step(out, c, lines[i]).Err?
    requires Translate(lines, Empty, c) == Translate(lines[i..], out, c)
    ensures Output(lines, c) == Err(Step(out, c, lines[i]).error)
  {
    assert lines[i..][0] == lines[i];
    FailedTranslation(lines, c);
  }

  /** The loop only appends: the text it starts from stays at the front of the
      text it ends with. */
  lemma {:induction false} TranslateExtends(lines: seq<string>, out: Frag, c: Counter)
    requires Open(out)
    ensures Translate(lines, out, c).Ok? ==> Join(out) <= Join(Translate(lines, out, c).value.0)
    decreases |lines|
  {
    if lines != [] {
      match Step(out, c, lines[0])
      case Err(_) =>
      case Ok((o, c1)) =>
        var r := Translate(lines[1..], o, c1);
        assert Translate(lines, out, c) == r;
        TranslateExtends(lines[1..], o, c1);
        var lc := LineCode(lines[0], c);
        if lc.value.0.Some? && r.Ok? {
          StepText(out, c, lines[0]);
          PrefixOfAppend(Join(out), Join(lc.value.0.value), ",");
          PrefixTransitive(Join(out), Join(o), Join(r.value.0));
        }
    }
  }

  lemma PrefixOfAppend(a: string, b: string, c: string)
    ensures a <= a + b + c
  {
    assert (a + b + c)[..|a|] == a;
  }

  lemma PrefixTransitive(a: string, b: string, c: string)
    requires a <= b && b <= c
    ensures a <= c
  {
    assert c[..|a|] == b[..|a|];
  }

  /** In the text the pieces stand for, a pass appends the line's code and one comma. */
  lemma StepText(out: Frag, c: Counter, line: string)
    requires Open(out)
    requires LineCode(line, c).Ok? && LineCode(line, c).value.0.Some?
    ensures Step(out, c, line).Ok?
    ensures Join(Step(out, c, line).value.0) == Join(out) + Join(LineCode(line, c).value.0.value) + ","
  {
    var code := LineCode(line, c).value.0.value;
    assert Step(out, c, line).value.0 == Concat(Concat(out, code), Comma);
    JoinAppendComma(out, code);
  }

  // ---------------------------------------------------------------------------
  // The translator with LABEL_NUMBER global.

  /** The module with its counter LABEL_NUMBER, declared `global` in uniqueLabel. */
  class Translation {
    var labelNumber: nat

    constructor()
      ensures labelNumber == 0
    {
      labelNumber := 0;
    }

    /** uniqueLabel: a fresh label from the counter, which moves on by one. */
    method UniqueLabel() returns (l: string)
      modifies this
      ensures NextLabel(Global(old(labelNumber))) == Ok((l, Global(labelNumber)))
    {
      l := Label(labelNumber);
      labelNumber := labelNumber + 1;
    }

    /** ParseFile over the lines of a file: the translated text, or the error
        that ends the run. */
    method ParseFile(lines: seq<string>) returns (r: Result<seq<string>>)
      modifies this
      ensures r == Output(lines, Global(old(labelNumber)))
      ensures r.Ok? ==> labelNumber == old(labelNumber) + 1
      ensures r.Err? ==> labelNumber == old(labelNumber)
    {
      var outString := Empty;
      for i := 0 to |lines|
        invariant Open(outString)
        invariant labelNumber == old(labelNumber)
        invariant Translate(lines, Empty, Global(labelNumber)) ==
          Translate(lines[i..], outString, Global(labelNumber))
      {
        var pass := Step(outString, Global(labelNumber), lines[i]);
        if pass.Err? {
          StopAt(lines, i, outString, Global(labelNumber));
          return Err(pass.error);
        }
        TranslateFrom(lines, i, outString, Global(labelNumber));
        outString := pass.value.0;
      }
      assert lines[|lines|..] == [];
      var l := UniqueLabel();
      r := Ok(Translator.Render(Concat(outString, HaltLoop(l))));
    }
  }
}
