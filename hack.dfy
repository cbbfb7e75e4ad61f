/** Straight-line execution of Hack assembly lines, enough to state what the
    generated fragments do to the machine. The machine has the address register A,
    the data register D and the data memory RAM; `M` names RAM[A]. Values are
    unbounded integers (no 16-bit wrap-around). Labels `(X)`, jumps `c;JXX` and
    any line outside the forms below are not executed: running them yields
    `None`. A blank line does nothing, as the assembler skips it. */
module Hack {
  import opened Python

  /** The registers and memories of the machine, generic in how the memories
      are represented. `symbols` holds the addresses the assembler gives user
      symbols (variables such as `STATIC.3`); the predefined symbols are fixed
      by the platform. */
  datatype Machine<Ram, Table> = State(a: int, d: int, ram: Ram, symbols: Table)

  /** The machine with RAM as a map from addresses to words. */
  type State = Machine<map<int, int>, map<string, int>>

  // The Standard VM Mapping on the Hack Platform: the stack pointer and the
  // segment base pointers live in the first words of RAM.
  const SP: int := 0
  const LCL: int := 1
  const ARG: int := 2
  const THIS: int := 3
  const THAT: int := 4
  const R13: int := 13

  /** RAM[addr]; a word never written reads as 0. */
  function Mem(s: State, addr: int): int {
    if addr in s.ram then s.ram[addr] else 0
  }

  /** The predefined symbols of the Hack assembler. */
  function Predefined(name: string): Option<int> {
    if name == "SP" then Some(0)
    else if name == "LCL" then Some(1)
    else if name == "ARG" then Some(2)
    else if name == "THIS" then Some(3)
    else if name == "THAT" then Some(4)
    else if name == "SCREEN" then Some(16384)
    else if name == "KBD" then Some(24576)
    else if |name| == 2 && name[0] == 'R' && IsDigit(name[1]) then Some(DigitValue(name[1]))
    else if |name| == 3 && name[0] == 'R' && name[1] == '1' && '0' <= name[2] <= '5' then
      Some(10 + DigitValue(name[2]))
    else None
  }

  /** The value of `@name`: a decimal constant, a predefined symbol or a user symbol. */
  function Resolve(name: string, s: State): Option<int> {
    if name != [] && IsDigit(name[0]) then
      match ParseNat(name)
      case Some(n) => Some(n as int)
      case None => None
    else match Predefined(name)
      case Some(n) => Some(n)
      case None => if name in s.symbols then Some(s.symbols[name]) else None
  }

  /** Bitwise NOT in two's complement. */
  function Not(x: int): int { -x - 1 }

  function BitSize(x: int): nat { if x < 0 then -x - 1 else x }

  /** Bitwise AND in two's complement, of unbounded width. */
  function And(x: int, y: int): int
    decreases BitSize(x) + BitSize(y)
  {
    if x == 0 || y == 0 then 0
    else if x == -1 then y
    else if y == -1 then x
    else 2 * And(x / 2, y / 2) + (if x % 2 == 1 && y % 2 == 1 then 1 else 0)
  }

  /** Bitwise OR, by De Morgan. */
  function Or(x: int, y: int): int { Not(And(Not(x), Not(y))) }

  /** The value of a one-character operand of a computation. */
  function Operand(c: char, s: State): Option<int> {
    if c == 'A' then Some(s.a)
    else if c == 'D' then Some(s.d)
    else if c == 'M' then Some(Mem(s, s.a))
    else if c == '0' then Some(0)
    else if c == '1' then Some(1)
    else None
  }

  /** The value of the `comp` part of `dest=comp`: an operand, a negated or
      inverted operand, or two operands joined by `+`, `-`, `&` or `|`. */
  function Compute(comp: string, s: State): Option<int> {
    if |comp| == 1 then Operand(comp[0], s)
    else if |comp| == 2 then
      match Operand(comp[1], s)
      case None => None
      case Some(x) =>
        if comp[0] == '-' then Some(-x) else if comp[0] == '!' then Some(Not(x)) else None
    else if |comp| == 3 then
      match Operand(comp[0], s)
      case None => None
      case Some(x) =>
        match Operand(comp[2], s)
        case None => None
        case Some(y) =>
          if comp[1] == '+' then Some(x + y)
          else if comp[1] == '-' then Some(x - y)
          else if comp[1] == '&' then Some(And(x, y))
          else if comp[1] == '|' then Some(Or(x, y))
          else None
    else None
  }

  /** One assembly line: blank, `@value`, or `dest=comp` with a one-register
      destination. */
  function Exec(ins: string, s: State): Option<State> {
    if ins == [] then Some(s)
    else if ins[0] == '@' then
      match Resolve(ins[1..], s)
      case Some(v) => Some(s.(a := v))
      case None => None
    else if |ins| >= 3 && ins[1] == '=' then
      match Compute(ins[2..], s)
      case None => None
      case Some(v) =>
        if ins[0] == 'A' then Some(s.(a := v))
        else if ins[0] == 'D' then Some(s.(d := v))
        else if ins[0] == 'M' then Some(s.(ram := s.ram[s.a := v]))
        else None
    else None
  }

  /** Runs the lines in order; `None` as soon as one cannot be executed. */
  function Run(p: seq<string>, s: State): Option<State>
    decreases |p|
  {
    if p == [] then Some(s)
    else match Exec(p[0], s)
      case None => None
      case Some(t) => Run(p[1..], t)
  }

  /** Continues a run, if it got through. */
  function Then(o: Option<State>, q: seq<string>): Option<State> {
    match o
    case None => None
    case Some(t) => Run(q, t)
  }

  /** Running two programs one after the other is running their concatenation. */
  lemma {:induction false} RunAppend(p: seq<string>, q: seq<string>, s: State)
    ensures Run(p + q, s) == Then(Run(p, s), q)
    decreases |p|
  {
    if p == [] {
      assert p + q == q;
    } else {
      assert (p + q)[0] == p[0] && (p + q)[1..] == p[1..] + q;
      match Exec(p[0], s)
      case None =>
      case Some(t) => RunAppend(p[1..], q, t);
    }
  }

  /** The first line of a run. */
  lemma RunStep(p: seq<string>, s: State, t: State)
    requires p != [] && Exec(p[0], s) == Some(t)
    ensures Run(p, s) == Run(p[1..], t)
  {
  }

  /** Short runs, line by line. */
  lemma Run2(i0: string, i1: string, s: State, s1: State, s2: State)
    requires Exec(i0, s) == Some(s1) && Exec(i1, s1) == Some(s2)
    ensures Run([i0, i1], s) == Some(s2)
  {
    assert [i0, i1][1..] == [i1];
    assert Run([i1], s1) == Run([], s2);
  }

  lemma Run3(i0: string, i1: string, i2: string, s: State, s1: State, s2: State, s3: State)
    requires Exec(i0, s) == Some(s1) && Exec(i1, s1) == Some(s2) && Exec(i2, s2) == Some(s3)
    ensures Run([i0, i1, i2], s) == Some(s3)
  {
    Run2(i1, i2, s1, s2, s3);
    assert [i0, i1, i2][1..] == [i1, i2];
  }

  lemma Run4(i0: string, i1: string, i2: string, i3: string,
             s: State, s1: State, s2: State, s3: State, s4: State)
    requires Exec(i0, s) == Some(s1) && Exec(i1, s1) == Some(s2)
    requires Exec(i2, s2) == Some(s3) && Exec(i3, s3) == Some(s4)
    ensures Run([i0, i1, i2, i3], s) == Some(s4)
  {
    Run3(i1, i2, i3, s1, s2, s3, s4);
    assert [i0, i1, i2, i3][1..] == [i1, i2, i3];
  }

  lemma Run5(i0: string, i1: string, i2: string, i3: string, i4: string,
             s: State, s1: State, s2: State, s3: State, s4: State, s5: State)
    requires Exec(i0, s) == Some(s1) && Exec(i1, s1) == Some(s2)
    requires Exec(i2, s2) == Some(s3) && Exec(i3, s3) == Some(s4) && Exec(i4, s4) == Some(s5)
    ensures Run([i0, i1, i2, i3, i4], s) == Some(s5)
  {
    Run4(i1, i2, i3, i4, s1, s2, s3, s4, s5);
    assert [i0, i1, i2, i3, i4][1..] == [i1, i2, i3, i4];
  }

  /** Two runs that get through, one after the other. */
  lemma RunSeq(p: seq<string>, q: seq<string>, s: State, t: State, u: State)
    requires Run(p, s) == Some(t) && Run(q, t) == Some(u)
    ensures Run(p + q, s) == Some(u)
  {
    RunAppend(p, q, s);
  }

  /** `@n` for a decimal numeral loads n into A. */
  lemma ExecNumber(n: nat, s: State)
    ensures Exec("@" + NatStr(n), s) == Some(s.(a := n))
  {
    var ins := "@" + NatStr(n);
    assert ins[1..] == NatStr(n);
    ParseNatStr(n);
  }

  /** `@` followed by decimal digits, leading zeros or not, loads their value. */
  lemma ExecDigits(name: string, s: State)
    requires name != [] && AllDigits(name)
    ensures Exec("@" + name, s) == Some(s.(a := DigitsValue(name)))
  {
    assert ("@" + name)[1..] == name;
  }

  /** A symbol of the Hack assembly language: letters, digits, `_`, `.`, `$` and
      `:`, not starting with a digit. */
  predicate SymbolChar(c: char) {
    'a' <= c <= 'z' || 'A' <= c <= 'Z' || IsDigit(c) || c == '_' || c == '.' || c == '$' || c == ':'
  }

  predicate IsSymbol(name: string) {
    name != [] && !IsDigit(name[0]) && forall i :: 0 <= i < |name| ==> SymbolChar(name[i])
  }

  /** A user symbol loads its address into A. */
  lemma ExecSymbol(name: string, s: State)
    requires name in s.symbols && Predefined(name).None?
    requires name != [] && !IsDigit(name[0])
    ensures Exec("@" + name, s) == Some(s.(a := s.symbols[name]))
  {
    assert ("@" + name)[1..] == name;
  }
}
