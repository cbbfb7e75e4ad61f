/** hvm_student.py: the stack fragments `getPushD` and `getPopD`, the generator
    `pointerSeg` for the segments local, argument, this and that, the functions
    still to be written, and the driver `ParseFile`. */
module Translator {
  import opened Python
  import opened CommaText
  import opened Hack

  /** SEGLABEL: the base-pointer symbol of each pointer-based segment, with its comma. */
  const SEGLABEL: map<string, Frag> :=
    map["local" := ["@LCL", ""], "argument" := ["@ARG", ""], "this" := ["@THIS", ""], "that" := ["@THAT", ""]]

  /** The RAM word that holds the base address of a pointer-based segment. */
  function BaseRegister(seg: string): int
    requires seg in SEGLABEL
  {
    if seg == "local" then LCL else if seg == "argument" then ARG else if seg == "this" then THIS else THAT
  }

  // The dispatch tables and the segment table are still empty in this file.
  const ARITH_BINARY: map<string, Frag> := map[]
  const ARITH_UNARY: map<string, Frag> := map[]
  const ARITH_TEST: map<string, Frag> := map[]
  const SEGMENTS: map<string, string> := map[]

  /** getPushD: "@SP,A=M,M=D,@SP,M=M+1," */
  function GetPushD(): Frag {
    ["@SP", "A=M", "M=D", "@SP", "M=M+1", ""]
  }

  /** getPopD: "@SP,M=M-1,A=M,D=M," */
  function GetPopD(): Frag {
    ["@SP", "M=M-1", "A=M", "D=M", ""]
  }

  /** getPushD is comma-free instructions, each followed by a comma, so it can be
      glued after any text ending in a comma. */
  lemma GetPushDShape()
    ensures Valid(GetPushD()) && |GetPushD()| == 6 && GetPushD()[5] == ""
  {
  }

  /** getPopD is comma-free instructions, each followed by a comma. */
  lemma GetPopDShape()
    ensures Valid(GetPopD()) && |GetPopD()| == 5 && GetPopD()[4] == ""
  {
  }

  /** pointerSeg: `None` (the Python function falls off its end) unless the segment
      is in SEGLABEL and the direction is 'push' or 'pop'. */
  function PointerSeg(pushpop: string, seg: string, index: int): (r: Option<Frag>)
    ensures r.Some? <==> seg in SEGLABEL && (pushpop == "push" || pushpop == "pop")
  {
    var ans := ["@" + Str(index), "D=A", ""];
    if seg in SEGLABEL then
      if pushpop == "push" then
        Some(Concat(Concat(Concat(ans, SEGLABEL[seg]), ["A=M", "A=A+D", "D=M", ""]), GetPushD()))
      else if pushpop == "pop" then
        Some(Concat(Concat(Concat(Concat(ans, SEGLABEL[seg]), ["A=D+M", "D=M", "@R13", "M=D", ""]), GetPopD()),
                    ["@R13", "A=M", "M=D", ""]))
      else None
    else None
  }

  /** pointerSeg as its comments describe it: `D=D+M` stages the ADDRESS
      RAM[base] + index in R13, where the code loads the word stored there. */
  function PointerSegIntended(pushpop: string, seg: string, index: int): (r: Option<Frag>)
    ensures r.Some? <==> seg in SEGLABEL && (pushpop == "push" || pushpop == "pop")
  {
    var ans := ["@" + Str(index), "D=A", ""];
    if seg in SEGLABEL then
      if pushpop == "push" then
        Some(Concat(Concat(Concat(ans, SEGLABEL[seg]), ["A=M", "A=A+D", "D=M", ""]), GetPushD()))
      else if pushpop == "pop" then
        Some(Concat(Concat(Concat(Concat(ans, SEGLABEL[seg]), ["D=D+M", "@R13", "M=D", ""]), GetPopD()),
                    ["@R13", "A=M", "M=D", ""]))
      else None
    else None
  }

  // ---------------------------------------------------------------------------
  // The generated text, line by line. The pieces are named so that each can be
  // run on its own.

  /** `@index`, `D=A` and the segment's base symbol. */
  function SegHead(seg: string, index: int): seq<string>
    requires seg in SEGLABEL
  {
    ["@" + Str(index), "D=A", SEGLABEL[seg][0]]
  }

  /** From `push`: A := RAM[A] + D, D := RAM[A]. */
  function LoadIndexed(): seq<string> { ["A=M", "A=A+D", "D=M"] }

  /** From `pop` as written: R13 := RAM[RAM[A] + D]. */
  function StageContents(): seq<string> { ["A=D+M", "D=M", "@R13", "M=D"] }

  /** From `pop` as intended: R13 := RAM[A] + D. */
  function StageAddress(): seq<string> { ["D=D+M", "@R13", "M=D"] }

  /** getPushD without its closing comma. */
  function PushLines(): seq<string> { ["@SP", "A=M", "M=D", "@SP", "M=M+1"] }

  /** getPopD without its closing comma. */
  function PopLines(): seq<string> { ["@SP", "M=M-1", "A=M", "D=M"] }

  /** `@R13,A=M,M=D,`: RAM[RAM[13]] := D. */
  function StoreThroughR13(): seq<string> { ["@R13", "A=M", "M=D", ""] }

  lemma PushDText()
    ensures GetPushD() == PushLines() + [""]
  {
  }

  lemma PopDText()
    ensures GetPopD() == PopLines() + [""]
  {
  }

  /** `ans + SEGLABEL[seg]`: the head and a closing comma. */
  lemma HeadText(seg: string, index: int)
    requires seg in SEGLABEL
    ensures Concat(["@" + Str(index), "D=A", ""], SEGLABEL[seg]) == SegHead(seg, index) + [""]
  {
    var lab := SEGLABEL[seg];
    assert lab == [lab[0], ""];
    ConcatAfterComma(["@" + Str(index), "D=A", ""], lab);
  }

  /** The lines of `pointerSeg('push', seg, index)`. */
  lemma PointerPushPieces(seg: string, index: int)
    requires seg in SEGLABEL
    ensures PointerSeg("push", seg, index) == Some(SegHead(seg, index) + (LoadIndexed() + GetPushD()))
  {
    HeadText(seg, index);
    assert ["A=M", "A=A+D", "D=M", ""] == LoadIndexed() + [""];
    AppendAfterComma(SegHead(seg, index), LoadIndexed(), GetPushD());
    AfterComma(SegHead(seg, index), ["A=M", "A=A+D", "D=M", ""]);
  }

  /** Whatever it returns, pointerSeg's text starts with `@index,D=A,`. */
  lemma PointerSegHead(pushpop: string, seg: string, index: int)
    requires PointerSeg(pushpop, seg, index).Some?
    ensures
      var f := PointerSeg(pushpop, seg, index).value;
      |f| > 2 && f[0] == "@" + Str(index) && f[1] == "D=A"
  {
    if pushpop == "push" {
      PointerPushPieces(seg, index);
    } else {
      PointerPopPieces(seg, index);
    }
  }

  /** The intended pointerSeg differs from the written one in the pop only. */
  lemma PointerSegIntendedPush(pushpop: string, seg: string, index: int)
    requires pushpop != "pop"
    ensures PointerSegIntended(pushpop, seg, index) == PointerSeg(pushpop, seg, index)
  {
  }

  /** The first three operands of the written pop. */
  lemma PopStageText(seg: string, index: int)
    requires seg in SEGLABEL
    ensures Concat(Concat(["@" + Str(index), "D=A", ""], SEGLABEL[seg]), ["A=D+M", "D=M", "@R13", "M=D", ""]) ==
      (SegHead(seg, index) + StageContents()) + [""]
  {
    HeadText(seg, index);
    AfterComma(SegHead(seg, index), ["A=D+M", "D=M", "@R13", "M=D", ""]);
    assert ["A=D+M", "D=M", "@R13", "M=D", ""] == StageContents() + [""];
  }

  /** The lines of `pointerSeg('pop', seg, index)`. */
  lemma PointerPopPieces(seg: string, index: int)
    requires seg in SEGLABEL
    ensures PointerSeg("pop", seg, index) ==
      Some((SegHead(seg, index) + StageContents()) + (PopLines() + StoreThroughR13()))
  {
    var x := SegHead(seg, index) + StageContents();
    PopStageText(seg, index);
    AfterComma(x, GetPopD());
    PopDText();
    AppendAfterComma(x, PopLines(), StoreThroughR13());
  }

  /** The first three operands of the intended pop. */
  lemma PopStageIntendedText(seg: string, index: int)
    requires seg in SEGLABEL
    ensures Concat(Concat(["@" + Str(index), "D=A", ""], SEGLABEL[seg]), ["D=D+M", "@R13", "M=D", ""]) ==
      (SegHead(seg, index) + StageAddress()) + [""]
  {
    HeadText(seg, index);
    AfterComma(SegHead(seg, index), ["D=D+M", "@R13", "M=D", ""]);
    assert ["D=D+M", "@R13", "M=D", ""] == StageAddress() + [""];
  }

  /** The lines of the intended pop. */
  lemma PointerPopIntendedPieces(seg: string, index: int)
    requires seg in SEGLABEL
    ensures PointerSegIntended("pop", seg, index) ==
      Some((SegHead(seg, index) + StageAddress()) + (PopLines() + StoreThroughR13()))
  {
    var x := SegHead(seg, index) + StageAddress();
    PopStageIntendedText(seg, index);
    AfterComma(x, GetPopD());
    PopDText();
    AppendAfterComma(x, PopLines(), StoreThroughR13());
  }

  // ---------------------------------------------------------------------------
  // What the pieces do to the machine.

  /** The stack lies above the sixteen virtual registers R0..R15, as in the
      standard mapping, where it starts at 256. */
  predicate StackAboveRegisters(s: State) {
    Mem(s, SP) >= 16
  }

  lemma PushLinesEffect(s: State)
    requires Mem(s, SP) != SP
    ensures Run(PushLines(), s) ==
      Some(State(SP, s.d, s.ram[Mem(s, SP) := s.d][SP := Mem(s, SP) + 1], s.symbols))
  {
    var sp := Mem(s, SP);
    var s1 := State(SP, s.d, s.ram, s.symbols);
    var s2 := State(sp, s.d, s.ram, s.symbols);
    var s3 := State(sp, s.d, s.ram[sp := s.d], s.symbols);
    var s4 := State(SP, s.d, s.ram[sp := s.d], s.symbols);
    var s5 := State(SP, s.d, s.ram[sp := s.d][SP := sp + 1], s.symbols);
    assert Mem(s4, SP) == sp;
    Run5("@SP", "A=M", "M=D", "@SP", "M=M+1", s, s1, s2, s3, s4, s5);
  }

  /** getPushD writes D to the top of the stack and advances SP; D and every
      other word are unchanged, and A is left at SP. */
  lemma PushDEffect(s: State)
    requires Mem(s, SP) != SP
    ensures Run(GetPushD(), s) ==
      Some(State(SP, s.d, s.ram[Mem(s, SP) := s.d][SP := Mem(s, SP) + 1], s.symbols))
  {
    PushLinesEffect(s);
    var t := State(SP, s.d, s.ram[Mem(s, SP) := s.d][SP := Mem(s, SP) + 1], s.symbols);
    assert Run([""], t) == Some(t);
    RunSeq(PushLines(), [""], s, t, t);
    PushDText();
  }

  /** The same four lines as getPopD, without the closing comma. */
  lemma PopLinesEffect(s: State)
    requires Mem(s, SP) != SP + 1
    ensures Run(PopLines(), s) ==
      Some(State(Mem(s, SP) - 1, Mem(s, Mem(s, SP) - 1), s.ram[SP := Mem(s, SP) - 1], s.symbols))
  {
    var sp := Mem(s, SP);
    var s1 := State(SP, s.d, s.ram, s.symbols);
    var s2 := State(SP, s.d, s.ram[SP := sp - 1], s.symbols);
    var s3 := State(sp - 1, s.d, s.ram[SP := sp - 1], s.symbols);
    var s4 := State(sp - 1, Mem(s, sp - 1), s.ram[SP := sp - 1], s.symbols);
    assert Mem(s2, sp - 1) == Mem(s, sp - 1);
    Run4("@SP", "M=M-1", "A=M", "D=M", s, s1, s2, s3, s4);
  }

  /** getPopD moves SP back and loads the old top into D and, as its comment
      says, leaves A pointing at the popped word. */
  lemma PopDEffect(s: State)
    requires Mem(s, SP) != SP + 1
    ensures Run(GetPopD(), s) ==
      Some(State(Mem(s, SP) - 1, Mem(s, Mem(s, SP) - 1), s.ram[SP := Mem(s, SP) - 1], s.symbols))
  {
    PopLinesEffect(s);
    var t := State(Mem(s, SP) - 1, Mem(s, Mem(s, SP) - 1), s.ram[SP := Mem(s, SP) - 1], s.symbols);
    assert Run([""], t) == Some(t);
    RunSeq(PopLines(), [""], s, t, t);
    PopDText();
  }

  /** `getPushD() + getPopD()`: the push's closing comma separates the two. */
  lemma PushPopText()
    ensures Concat(GetPushD(), GetPopD()) == PushLines() + GetPopD()
  {
    PushDText();
    AfterComma(PushLines(), GetPopD());
  }

  /** A push followed by a pop, as text glued by `+`, restores SP and D; only the
      word just above the stack keeps the copy of D. */
  lemma PushThenPop(s: State)
    requires Mem(s, SP) != SP
    ensures Run(Concat(GetPushD(), GetPopD()), s) ==
      Some(State(Mem(s, SP), s.d, s.ram[Mem(s, SP) := s.d], s.symbols))
  {
    PushPopText();
    PushLinesThenPop(s);
  }

  lemma PushLinesThenPop(s: State)
    requires Mem(s, SP) != SP
    ensures Run(PushLines() + GetPopD(), s) ==
      Some(State(Mem(s, SP), s.d, s.ram[Mem(s, SP) := s.d], s.symbols))
  {
    var sp := Mem(s, SP);
    PushLinesEffect(s);
    var t := State(SP, s.d, s.ram[sp := s.d][SP := sp + 1], s.symbols);
    var u := State(sp, s.d, s.ram[sp := s.d], s.symbols);
    PopAfterPush(s, t);
    RunSeq(PushLines(), GetPopD(), s, t, u);
  }

  lemma PopAfterPush(s: State, t: State)
    requires Mem(s, SP) != SP
    requires t == State(SP, s.d, s.ram[Mem(s, SP) := s.d][SP := Mem(s, SP) + 1], s.symbols)
    ensures Run(GetPopD(), t) == Some(State(Mem(s, SP), s.d, s.ram[Mem(s, SP) := s.d], s.symbols))
  {
    var sp := Mem(s, SP);
    assert Mem(t, SP) == sp + 1 && Mem(t, sp) == s.d;
    PopDEffect(t);
    assert t.ram[SP := sp] == s.ram[sp := s.d];
  }

  /** The head of a pointer-segment fragment sets A to the RAM word holding the
      segment base and D to the index. */
  lemma SegHeadEffect(seg: string, index: nat, s: State) returns (t: State)
    requires seg in SEGLABEL
    ensures t == State(BaseRegister(seg), index, s.ram, s.symbols)
    ensures Run(SegHead(seg, index), s) == Some(t)
  {
    ExecNumber(index, s);
    assert Str(index) == NatStr(index);
    var s1 := State(index, s.d, s.ram, s.symbols);
    var s2 := State(index, index, s.ram, s.symbols);
    t := State(BaseRegister(seg), index, s.ram, s.symbols);
    assert Exec(SEGLABEL[seg][0], s2) == Some(t);
    Run3("@" + Str(index), "D=A", SEGLABEL[seg][0], s, s1, s2, t);
  }

  lemma LoadIndexedEffect(s: State)
    ensures Run(LoadIndexed(), s) ==
      Some(State(Mem(s, s.a) + s.d, Mem(s, Mem(s, s.a) + s.d), s.ram, s.symbols))
  {
    var s1 := State(Mem(s, s.a), s.d, s.ram, s.symbols);
    var s2 := State(Mem(s, s.a) + s.d, s.d, s.ram, s.symbols);
    var s3 := State(Mem(s, s.a) + s.d, Mem(s, Mem(s, s.a) + s.d), s.ram, s.symbols);
    Run3("A=M", "A=A+D", "D=M", s, s1, s2, s3);
  }

  lemma StageContentsEffect(s: State)
    ensures
      var c := Mem(s, s.d + Mem(s, s.a));
      Run(StageContents(), s) == Some(State(R13, c, s.ram[R13 := c], s.symbols))
  {
    var c := Mem(s, s.d + Mem(s, s.a));
    var s1 := State(s.d + Mem(s, s.a), s.d, s.ram, s.symbols);
    var s2 := State(s.d + Mem(s, s.a), c, s.ram, s.symbols);
    var s3 := State(R13, c, s.ram, s.symbols);
    var s4 := State(R13, c, s.ram[R13 := c], s.symbols);
    Run4("A=D+M", "D=M", "@R13", "M=D", s, s1, s2, s3, s4);
  }

  lemma StageAddressEffect(s: State)
    ensures
      var addr := s.d + Mem(s, s.a);
      Run(StageAddress(), s) == Some(State(R13, addr, s.ram[R13 := addr], s.symbols))
  {
    var addr := s.d + Mem(s, s.a);
    var s1 := State(s.a, addr, s.ram, s.symbols);
    var s2 := State(R13, addr, s.ram, s.symbols);
    var s3 := State(R13, addr, s.ram[R13 := addr], s.symbols);
    Run3("D=D+M", "@R13", "M=D", s, s1, s2, s3);
  }

  lemma StoreThroughR13Effect(s: State)
    ensures Run(StoreThroughR13(), s) ==
      Some(State(Mem(s, R13), s.d, s.ram[Mem(s, R13) := s.d], s.symbols))
  {
    var s1 := State(R13, s.d, s.ram, s.symbols);
    var s2 := State(Mem(s, R13), s.d, s.ram, s.symbols);
    var s3 := State(Mem(s, R13), s.d, s.ram[Mem(s, R13) := s.d], s.symbols);
    Run4("@R13", "A=M", "M=D", "", s, s1, s2, s3, s3);
  }

  /** The common tail of both pops pops the stack into D and stores D at the
      address held in R13. */
  lemma PopThroughR13(s: State)
    requires StackAboveRegisters(s)
    ensures
      var sp := Mem(s, SP);
      var top := Mem(s, sp - 1);
      Run(PopLines() + StoreThroughR13(), s) ==
        Some(State(Mem(s, R13), top, s.ram[SP := sp - 1][Mem(s, R13) := top], s.symbols))
  {
    var sp := Mem(s, SP);
    var top := Mem(s, sp - 1);
    var t := State(sp - 1, top, s.ram[SP := sp - 1], s.symbols);
    PopLinesEffect(s);
    assert Mem(t, R13) == Mem(s, R13);
    StoreThroughR13Effect(t);
    RunSeq(PopLines(), StoreThroughR13(), s, t,
           State(Mem(s, R13), top, s.ram[SP := sp - 1][Mem(s, R13) := top], s.symbols));
  }

  /** `A=M,A=A+D,D=M` then getPushD, from the state the segment head leaves. */
  lemma LoadThenPush(base: int, index: int, s: State)
    requires Mem(s, SP) != SP
    ensures
      var v := Mem(s, Mem(s, base) + index);
      Run(LoadIndexed() + GetPushD(), State(base, index, s.ram, s.symbols)) ==
        Some(State(SP, v, s.ram[Mem(s, SP) := v][SP := Mem(s, SP) + 1], s.symbols))
  {
    var t := State(base, index, s.ram, s.symbols);
    var addr := Mem(s, base) + index;
    var u := State(addr, Mem(s, addr), s.ram, s.symbols);
    LoadIndexedEffect(t);
    assert Mem(u, SP) == Mem(s, SP);
    PushDEffect(u);
    RunSeq(LoadIndexed(), GetPushD(), t, u,
           State(SP, Mem(s, addr), s.ram[Mem(s, SP) := Mem(s, addr)][SP := Mem(s, SP) + 1], s.symbols));
  }

  lemma RunPointerPush(seg: string, index: nat, s: State)
    requires seg in SEGLABEL && Mem(s, SP) != SP
    ensures
      var v := Mem(s, Mem(s, BaseRegister(seg)) + index);
      Run(SegHead(seg, index) + (LoadIndexed() + GetPushD()), s) ==
        Some(State(SP, v, s.ram[Mem(s, SP) := v][SP := Mem(s, SP) + 1], s.symbols))
  {
    var v := Mem(s, Mem(s, BaseRegister(seg)) + index);
    var t := SegHeadEffect(seg, index, s);
    LoadThenPush(BaseRegister(seg), index, s);
    RunSeq(SegHead(seg, index), LoadIndexed() + GetPushD(), s, t,
           State(SP, v, s.ram[Mem(s, SP) := v][SP := Mem(s, SP) + 1], s.symbols));
  }

  /** `push seg index` pushes RAM[RAM[base] + index]: SP goes up by one and no
      other word is written. */
  lemma PointerPushEffect(seg: string, index: nat, s: State)
    requires seg in SEGLABEL && Mem(s, SP) != SP
    ensures PointerSeg("push", seg, index).Some?
    ensures
      var v := Mem(s, Mem(s, BaseRegister(seg)) + index);
      Run(PointerSeg("push", seg, index).value, s) ==
        Some(State(SP, v, s.ram[Mem(s, SP) := v][SP := Mem(s, SP) + 1], s.symbols))
  {
    PointerPushPieces(seg, index);
    RunPointerPush(seg, index, s);
  }

  /** `@index,D=A,@BASE,A=D+M,D=M,@R13,M=D`: R13 receives the contents c of the
      segment word. */
  lemma RunHeadStageContents(seg: string, index: nat, s: State)
    requires seg in SEGLABEL
    ensures
      var c := Mem(s, Mem(s, BaseRegister(seg)) + index);
      Run(SegHead(seg, index) + StageContents(), s) == Some(State(R13, c, s.ram[R13 := c], s.symbols))
  {
    var c := Mem(s, Mem(s, BaseRegister(seg)) + index);
    var s2 := SegHeadEffect(seg, index, s);
    StageContentsEffect(s2);
    RunSeq(SegHead(seg, index), StageContents(), s, s2, State(R13, c, s.ram[R13 := c], s.symbols));
  }

  lemma RunPointerPop(seg: string, index: nat, s: State)
    requires seg in SEGLABEL && StackAboveRegisters(s)
    ensures
      var sp := Mem(s, SP);
      var c := Mem(s, Mem(s, BaseRegister(seg)) + index);
      var top := Mem(s, sp - 1);
      Run((SegHead(seg, index) + StageContents()) + (PopLines() + StoreThroughR13()), s) ==
        Some(State(c, top, s.ram[R13 := c][SP := sp - 1][c := top], s.symbols))
  {
    var sp := Mem(s, SP);
    var c := Mem(s, Mem(s, BaseRegister(seg)) + index);
    var s6 := State(R13, c, s.ram[R13 := c], s.symbols);
    RunHeadStageContents(seg, index, s);
    assert Mem(s6, SP) == sp && Mem(s6, sp - 1) == Mem(s, sp - 1) && Mem(s6, R13) == c;
    PopThroughR13(s6);
    RunSeq(SegHead(seg, index) + StageContents(), PopLines() + StoreThroughR13(), s, s6,
           State(c, Mem(s, sp - 1), s.ram[R13 := c][SP := sp - 1][c := Mem(s, sp - 1)], s.symbols));
  }

  /** `pop seg index` as written: R13 receives the CONTENTS c of RAM[RAM[base] + index]
      (the code says `A=D+M,D=M` where its comments say `D=D+M`), SP goes down
      by one, and the popped value is stored at address c. */
  lemma PointerPopEffect(seg: string, index: nat, s: State)
    requires seg in SEGLABEL && StackAboveRegisters(s)
    ensures PointerSeg("pop", seg, index).Some?
    ensures
      var sp := Mem(s, SP);
      var c := Mem(s, Mem(s, BaseRegister(seg)) + index);
      var top := Mem(s, sp - 1);
      Run(PointerSeg("pop", seg, index).value, s) ==
        Some(State(c, top, s.ram[R13 := c][SP := sp - 1][c := top], s.symbols))
  {
    PointerPopPieces(seg, index);
    RunPointerPop(seg, index, s);
  }

  /** The fragment's promise fails: with LCL = 300, RAM[300] = 7 and 42 on top of
      the stack, `pop local 0` leaves RAM[300] at 7 and writes 42 to RAM[7]. */
  lemma PointerPopMissesSegmentWord()
    ensures
      var s := State(0, 0, map[SP := 257, LCL := 300, 256 := 42, 300 := 7], map[]);
      var t := Run(PointerSeg("pop", "local", 0).value, s);
      t.Some? && Mem(t.value, 300) == 7 && Mem(t.value, 7) == 42 && Mem(t.value, SP) == 256
  {
    var s := State(0, 0, map[SP := 257, LCL := 300, 256 := 42, 300 := 7], map[]);
    PointerPopEffect("local", 0, s);
  }

  /** `@index,D=A,@BASE,D=D+M,@R13,M=D`: R13 receives the address of the
      segment word. */
  lemma RunHeadStageAddress(seg: string, index: nat, s: State)
    requires seg in SEGLABEL
    ensures
      var addr := Mem(s, BaseRegister(seg)) + index;
      Run(SegHead(seg, index) + StageAddress(), s) == Some(State(R13, addr, s.ram[R13 := addr], s.symbols))
  {
    var addr := Mem(s, BaseRegister(seg)) + index;
    var s2 := SegHeadEffect(seg, index, s);
    StageAddressEffect(s2);
    RunSeq(SegHead(seg, index), StageAddress(), s, s2, State(R13, addr, s.ram[R13 := addr], s.symbols));
  }

  lemma RunPointerPopIntended(seg: string, index: nat, s: State)
    requires seg in SEGLABEL && StackAboveRegisters(s)
    ensures
      var sp := Mem(s, SP);
      var addr := Mem(s, BaseRegister(seg)) + index;
      var top := Mem(s, sp - 1);
      Run((SegHead(seg, index) + StageAddress()) + (PopLines() + StoreThroughR13()), s) ==
        Some(State(addr, top, s.ram[R13 := addr][SP := sp - 1][addr := top], s.symbols))
  {
    var sp := Mem(s, SP);
    var addr := Mem(s, BaseRegister(seg)) + index;
    var s5 := State(R13, addr, s.ram[R13 := addr], s.symbols);
    RunHeadStageAddress(seg, index, s);
    assert Mem(s5, SP) == sp && Mem(s5, sp - 1) == Mem(s, sp - 1) && Mem(s5, R13) == addr;
    PopThroughR13(s5);
    RunSeq(SegHead(seg, index) + StageAddress(), PopLines() + StoreThroughR13(), s, s5,
           State(addr, Mem(s, sp - 1), s.ram[R13 := addr][SP := sp - 1][addr := Mem(s, sp - 1)], s.symbols));
  }

  /** The intended pop stores the old top at RAM[base] + index and moves SP down
      by one; besides, only the scratch word R13 changes. */
  lemma PointerPopIntendedEffect(seg: string, index: nat, s: State)
    requires seg in SEGLABEL && StackAboveRegisters(s)
    ensures PointerSegIntended("pop", seg, index).Some?
    ensures
      var sp := Mem(s, SP);
      var addr := Mem(s, BaseRegister(seg)) + index;
      var top := Mem(s, sp - 1);
      Run(PointerSegIntended("pop", seg, index).value, s) ==
        Some(State(addr, top, s.ram[R13 := addr][SP := sp - 1][addr := top], s.symbols))
  {
    PointerPopIntendedPieces(seg, index);
    RunPointerPopIntended(seg, index, s);
  }

  /** Pushing a segment word and popping it back with the intended pop restores
      that word and SP. */
  lemma PointerPushPopRoundTrip(seg: string, index: nat, s: State)
    requires seg in SEGLABEL && StackAboveRegisters(s)
    requires Mem(s, BaseRegister(seg)) + index != SP
    ensures
      var addr := Mem(s, BaseRegister(seg)) + index;
      var t := Run(PointerSeg("push", seg, index).value, s);
      t.Some? &&
      var u := Run(PointerSegIntended("pop", seg, index).value, t.value);
      u.Some? && Mem(u.value, SP) == Mem(s, SP) && Mem(u.value, addr) == Mem(s, addr)
  {
    var sp := Mem(s, SP);
    var addr := Mem(s, BaseRegister(seg)) + index;
    var v := Mem(s, addr);
    PointerPushEffect(seg, index, s);
    var t := State(SP, v, s.ram[sp := v][SP := sp + 1], s.symbols);
    PushedState(seg, index, s);
    PointerPopIntendedEffect(seg, index, t);
  }

  /** What a pointer push leaves for the pop that follows it. */
  lemma PushedState(seg: string, index: nat, s: State)
    requires seg in SEGLABEL && StackAboveRegisters(s)
    requires Mem(s, BaseRegister(seg)) + index != SP
    ensures
      var sp := Mem(s, SP);
      var addr := Mem(s, BaseRegister(seg)) + index;
      var v := Mem(s, addr);
      var t := State(SP, v, s.ram[sp := v][SP := sp + 1], s.symbols);
      StackAboveRegisters(t) && Mem(t, SP) == sp + 1 && Mem(t, sp) == v &&
      (Mem(t, BaseRegister(seg)) + index == addr || BaseRegister(seg) == sp)
  {
  }

  // ---------------------------------------------------------------------------
  // The functions still to be written: each falls off its end and returns None.

  function FixedSeg(push: string, seg: string, index: int): (r: Option<Frag>)
    ensures r.None?
  {
    None
  }

  function ConstantSeg(push: string, seg: string, index: int): (r: Option<Frag>)
    ensures r.None?
  {
    None
  }

  function Line2Command(line: string): (r: Option<string>)
    ensures r.None?
  {
    None
  }

  function UniqueLabel(): (r: Option<string>)
    ensures r.None?
  {
    None
  }

  /** Python's `'%s' % x`. */
  function Format(x: Option<string>): string {
    match x
    case None => "None"
    case Some(v) => v
  }

  /** `replace(" ","").replace(',','\n')`: the lines of the output. */
  function Render(f: Frag): (lines: seq<string>)
    ensures |lines| == |f|
    ensures forall i :: 0 <= i < |lines| ==> ' ' !in lines[i]
    ensures forall i :: 0 <= i < |f| && ' ' !in f[i] ==> lines[i] == f[i]
    ensures Valid(f) ==> forall i :: 0 <= i < |lines| ==> ',' !in lines[i]
  {
    seq(|f|, i requires 0 <= i < |f| => RemoveSpaces(f[i]))
  }

  /** ParseFile: every line is skipped, because line2Command returns None, and
      the output is the halt loop built from `uniqueLabel()`, which is also None. */
  method ParseFile(lines: seq<string>) returns (out: seq<string>)
    ensures out == ["(None)", "@None", "0;JMP"]
  {
    var outString := Empty;
    for i := 0 to |lines|
      invariant outString == Empty
    {
      var command := Line2Command(lines[i]);
      match command {
        case None =>
        case Some(c) =>
          assert false;
      }
    }
    var l := UniqueLabel();
    var halt := Concat(["(" + Format(l) + ")"], ["", "@" + Format(l), "0;JMP"]);
    assert "(" + Format(l) + ")" == "(None)" && "@" + Format(l) == "@None";
    assert halt == [] + ["(None)" + ""] + ["@None", "0;JMP"];
    assert "(None)" + "" == "(None)";
    assert halt == ["(None)", "@None", "0;JMP"];
    ConcatEmpty(halt);
    outString := Concat(outString, halt);
    out := Render(outString);
  }
}
