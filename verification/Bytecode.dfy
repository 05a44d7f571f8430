/** Instructions of the stack machine, their byte encoding, and what they do to the
    machine state. `None` stands for behaviour the C program leaves undefined. */
module Bytecode {
  import opened Words

  const STACK_MAX := 64
  const TEXT_MAX := 128

  datatype Instr =
    | Noop
    | Arith(op: BinOp, w: Width)
    | Not(w: Width)
    | Ld(w: Width, v: word)
    | LdValue(w: Width, addr: word)
    | St(w: Width)
    | Pop
    | Invoke(n: byte)
    | LdStack(w: Width)

  // ----- encoding -----

  function WidthIndex(w: Width): int {
    match w
    case Byte => 0
    case Half => 1
    case Dword => 2
  }

  function ArithBase(op: BinOp): int {
    match op
    case Add => 0x01
    case Sub => 0x04
    case Div => 0x07
    case Rem => 0x0A
    case Mul => 0x0D
    case And => 0x10
    case Or => 0x13
    case Xor => 0x16
    case Shl => 0x1C
    case Shr => 0x1F
  }

  function Immediate(w: Width, v: word): seq<byte> {
    match w
    case Byte => [v % 256]
    case Half => Bytes2(v)
    case Dword => Bytes4(v)
  }

  function Opcode(i: Instr): byte {
    match i
    case Noop => 0x00
    case Arith(op, w) => ArithBase(op) + WidthIndex(w)
    case Not(w) => 0x19 + WidthIndex(w)
    case Ld(w, _) => 0x22 + WidthIndex(w)
    case LdValue(w, _) => 0x25 + WidthIndex(w)
    case St(w) => 0x28 + WidthIndex(w)
    case Pop => 0x2B
    case Invoke(_) => 0x2C
    case LdStack(w) => 0x2D + WidthIndex(w)
  }

  function Operand(i: Instr): seq<byte> {
    match i
    case Ld(w, v) => Immediate(w, v)
    case LdValue(_, a) => Bytes4(a)
    case Invoke(n) => [n]
    case _ => []
  }

  function Encode(i: Instr): seq<byte> {
    [Opcode(i)] + Operand(i)
  }

  function EncodeAll(code: seq<Instr>): seq<byte> {
    if code == [] then [] else Encode(code[0]) + EncodeAll(code[1..])
  }

  lemma {:induction false} EncodeAppend(a: seq<Instr>, b: seq<Instr>)
    ensures EncodeAll(a + b) == EncodeAll(a) + EncodeAll(b)
  {
    if a == [] {
      assert a + b == b;
    } else {
      assert (a + b)[1..] == a[1..] + b;
      EncodeAppend(a[1..], b);
    }
  }

  lemma EncodeOne(i: Instr)
    ensures EncodeAll([i]) == Encode(i)
  {
    assert [i][1..] == [];
    assert Encode(i) + [] == Encode(i);
  }

  /** Where the instructions stand in the dispatch table. */
  lemma OpcodePlace(k: int, v: word, n: byte)
    requires 0 <= k < 3
    ensures var w := WidthAt(k);
      && Opcode(Arith(Add, w)) == 1 + k && Opcode(Arith(Sub, w)) == 4 + k && Opcode(Arith(Div, w)) == 7 + k
      && Opcode(Arith(Rem, w)) == 10 + k && Opcode(Arith(Mul, w)) == 13 + k && Opcode(Arith(And, w)) == 16 + k
      && Opcode(Arith(Or, w)) == 19 + k && Opcode(Arith(Xor, w)) == 22 + k && Opcode(Not(w)) == 25 + k
      && Opcode(Arith(Shl, w)) == 28 + k && Opcode(Arith(Shr, w)) == 31 + k && Opcode(Ld(w, v)) == 34 + k
      && Opcode(LdValue(w, v)) == 37 + k && Opcode(St(w)) == 40 + k && Opcode(LdStack(w)) == 45 + k
    ensures Opcode(Noop) == 0 && Opcode(Pop) == 43 && Opcode(Invoke(n)) == 44
  {
  }

  // ----- meaning -----

  /** Callees are opaque: a function address, its arguments and the memory determine the
      returned word and the new memory. */
  type Syscalls = (word, seq<word>, Memory) -> (word, Memory)

  datatype State = State(stack: seq<word>, sp: nat, mem: Memory)

  predicate ValidState(s: State) {
    |s.stack| == STACK_MAX && s.sp <= STACK_MAX
  }

  /** A call without arguments still hands its callee one zero. */
  function CallArgs(args: seq<word>): seq<word> {
    if args == [] then [0] else args
  }

  function ExecInstr(i: Instr, s: State, sys: Syscalls): (r: Option<State>)
    requires ValidState(s)
    ensures r.Some? ==> ValidState(r.value)
  {
    match i
    case Noop => Some(s)
    case Arith(op, w) =>
      if s.sp < 2 then None else
      var a, b := s.stack[s.sp - 2], s.stack[s.sp - 1];
      (match Apply(op, w, a, b)
       case None => None
       case Some(v) => Some(s.(stack := s.stack[s.sp - 2 := Merge(w, a, v)], sp := s.sp - 1)))
    case Not(w) =>
      if s.sp < 1 then None else
      var a := s.stack[s.sp - 1];
      Some(s.(stack := s.stack[s.sp - 1 := Merge(w, a, Complement(w, a))]))
    case Ld(w, v) =>
      if s.sp == STACK_MAX then None else
      Some(s.(stack := s.stack[s.sp := Merge(w, s.stack[s.sp], v)], sp := s.sp + 1))
    case LdValue(w, a) =>
      if s.sp == STACK_MAX then None else
      Some(s.(stack := s.stack[s.sp := Merge(w, s.stack[s.sp], Load(s.mem, w, a))], sp := s.sp + 1))
    case St(w) =>
      if s.sp < 2 then None else
      Some(s.(mem := Store(s.mem, w, s.stack[s.sp - 2], s.stack[s.sp - 1]), sp := s.sp - 1))
    case Pop =>
      if s.sp < 1 then None else Some(s.(sp := s.sp - 1))
    case Invoke(n) =>
      if n > 16 || s.sp < n + 1 then None else
      var base := s.sp - n - 1;
      var (v, m) := sys(s.stack[base], CallArgs(s.stack[base + 1..s.sp]), s.mem);
      Some(State(s.stack[base := v], base + 1, m))
    case LdStack(w) =>
      if s.sp < 1 then None else
      var a := s.stack[s.sp - 1];
      Some(s.(stack := s.stack[s.sp - 1 := Merge(w, a, Load(s.mem, w, a))]))
  }

  function Exec(code: seq<Instr>, s: State, sys: Syscalls): (r: Option<State>)
    requires ValidState(s)
    ensures r.Some? ==> ValidState(r.value)
  {
    if code == [] then Some(s)
    else match ExecInstr(code[0], s, sys)
      case None => None
      case Some(s') => Exec(code[1..], s', sys)
  }

  lemma {:induction false} ExecAppend(a: seq<Instr>, b: seq<Instr>, s: State, sys: Syscalls)
    requires ValidState(s)
    ensures Exec(a + b, s, sys) ==
            match Exec(a, s, sys) case None => None case Some(s') => Exec(b, s', sys)
  {
    if a == [] {
      assert a + b == b;
    } else {
      assert (a + b)[1..] == a[1..] + b;
      match ExecInstr(a[0], s, sys)
      case None =>
      case Some(s') => ExecAppend(a[1..], b, s', sys);
    }
  }

  // ----- fetching from the text segment -----

  function WidthAt(k: int): Width
    requires 0 <= k < 3
  {
    if k == 0 then Byte else if k == 1 then Half else Dword
  }

  function ArithAt(k: int): BinOp
    requires 0 <= k < 8
  {
    [Add, Sub, Div, Rem, Mul, And, Or, Xor][k]
  }

  /** The instruction an opcode selects from the dispatch table, its operand fetched from
      `rest`; `None` if the table has no entry or the operand runs off the segment. */
  function Decode(op: byte, rest: seq<byte>): (r: Option<Instr>)
    ensures r.Some? ==> |Operand(r.value)| <= |rest| && Opcode(r.value) == op
  {
    if op == 0 then Some(Noop)
    else if op < 25 then Some(Arith(ArithAt((op - 1) / 3), WidthAt((op - 1) % 3)))
    else if op < 28 then Some(Not(WidthAt(op - 25)))
    else if op < 31 then Some(Arith(Shl, WidthAt(op - 28)))
    else if op < 34 then Some(Arith(Shr, WidthAt(op - 31)))
    else if op == 34 then (if |rest| < 1 then None else Some(Ld(Byte, rest[0])))
    else if op == 35 then (if |rest| < 2 then None else Some(Ld(Half, FromBytes2(rest[0], rest[1]))))
    else if op == 36 then (if |rest| < 4 then None else Some(Ld(Dword, FromBytes4(rest[0], rest[1], rest[2], rest[3]))))
    else if op < 40 then
      (if |rest| < 4 then None else Some(LdValue(WidthAt(op - 37), FromBytes4(rest[0], rest[1], rest[2], rest[3]))))
    else if op < 43 then Some(St(WidthAt(op - 40)))
    else if op == 43 then Some(Pop)
    else if op == 44 then (if |rest| < 1 then None else Some(Invoke(rest[0])))
    else if op < 48 then Some(LdStack(WidthAt(op - 45)))
    else None
  }

  /** An operand is exactly representable at its width. */
  predicate Canonical(i: Instr) {
    i.Ld? ==> i.v < Mod(i.w)
  }

  lemma DecodeImmediate(w: Width, v: word, rest: seq<byte>)
    requires v < Mod(w)
    ensures Decode(0x22 + WidthIndex(w), Immediate(w, v) + rest) == Some(Ld(w, v))
  {
    BytesRoundTrip(v);
    hide Bytes2, Bytes4, FromBytes2, FromBytes4;
    var o := Immediate(w, v) + rest;
    match w
    case Byte => assert o[0] == v;
    case Half => assert o[0] == Bytes2(v)[0] && o[1] == Bytes2(v)[1];
    case Dword => assert o[0] == Bytes4(v)[0] && o[1] == Bytes4(v)[1] && o[2] == Bytes4(v)[2] && o[3] == Bytes4(v)[3];
  }

  lemma DecodeAddress(w: Width, a: word, rest: seq<byte>)
    ensures Decode(0x25 + WidthIndex(w), Bytes4(a) + rest) == Some(LdValue(w, a))
  {
    BytesRoundTrip(a);
    hide Bytes4, FromBytes4;
    var o := Bytes4(a) + rest;
    assert o[0] == Bytes4(a)[0] && o[1] == Bytes4(a)[1] && o[2] == Bytes4(a)[2] && o[3] == Bytes4(a)[3];
  }

  lemma DecodeArith(op: BinOp, w: Width, rest: seq<byte>)
    ensures Decode(ArithBase(op) + WidthIndex(w), rest) == Some(Arith(op, w))
  {
    var k := ArithBase(op) + WidthIndex(w) - 1;
    if !op.Shl? && !op.Shr? {
      assert k / 3 == (ArithBase(op) - 1) / 3 && k % 3 == WidthIndex(w);
    }
  }

  lemma DecodeEncode(i: Instr, rest: seq<byte>)
    requires Canonical(i)
    ensures Decode(Opcode(i), Operand(i) + rest) == Some(i)
  {
    match i
    case Ld(w, v) => DecodeImmediate(w, v, rest);
    case LdValue(w, a) => DecodeAddress(w, a, rest);
    case Arith(op, w) => DecodeArith(op, w, Operand(i) + rest);
    case Invoke(n) => assert (Operand(i) + rest)[0] == n;
    case _ =>
  }

  /** The fetch/dispatch loop over what is left of the text segment. */
  function Run(text: seq<byte>, s: State, sys: Syscalls): (r: Option<State>)
    requires ValidState(s)
    ensures r.Some? ==> ValidState(r.value)
  {
    if text == [] then Some(s)
    else match Decode(text[0], text[1..])
      case None => None
      case Some(i) =>
        match ExecInstr(i, s, sys)
        case None => None
        case Some(s') => Run(text[1 + |Operand(i)|..], s', sys)
  }

  predicate Zeros(bytes: seq<byte>) {
    forall k :: 0 <= k < |bytes| ==> bytes[k] == 0
  }

  lemma {:induction false} RunsZeros(tail: seq<byte>, s: State, sys: Syscalls)
    requires ValidState(s) && Zeros(tail)
    ensures Run(tail, s, sys) == Some(s)
  {
    if tail != [] {
      RunsZeros(tail[1..], s, sys);
    }
  }

  lemma RunStep(i: Instr, rest: seq<byte>, s: State, sys: Syscalls)
    requires ValidState(s) && Canonical(i)
    ensures Run(Encode(i) + rest, s, sys) ==
            match ExecInstr(i, s, sys) case None => None case Some(s') => Run(rest, s', sys)
  {
    hide ExecInstr, Decode, Operand, Opcode;
    var text := Encode(i) + rest;
    assert text[1..] == Operand(i) + rest;
    assert text[1 + |Operand(i)|..] == rest;
    DecodeEncode(i, rest);
  }

  /** A segment holding a program and a zero tail runs exactly that program: opcodes are
      decoded only at instruction boundaries and the tail does nothing. */
  lemma {:induction false} RunsEncoded(code: seq<Instr>, tail: seq<byte>, s: State, sys: Syscalls)
    requires ValidState(s) && Zeros(tail)
    requires forall i :: i in code ==> Canonical(i)
    ensures Run(EncodeAll(code) + tail, s, sys) == Exec(code, s, sys)
    decreases |code|
  {
    if code == [] {
      assert EncodeAll(code) + tail == tail;
      RunsZeros(tail, s, sys);
    } else {
      hide ExecInstr, Encode, Run;
      var i, rest := code[0], EncodeAll(code[1..]) + tail;
      assert EncodeAll(code) + tail == Encode(i) + rest;
      RunStep(i, rest, s, sys);
      match ExecInstr(i, s, sys)
      case None =>
      case Some(s') => RunsEncoded(code[1..], tail, s', sys);
    }
  }
}
