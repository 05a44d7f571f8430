/** The stack machine as it runs: one dispatch loop over the text segment, operating on a
    fixed array of slots. */
module Machine {
  import opened Words
  import opened Bytecode
  import opened Operators
  import opened Evaluation

  class Machine {
    const text: array<byte>
    const stack: array<word>
    const sys: Syscalls
    var sp: nat
    var pc: nat
    var mem: Memory

    constructor (text: array<byte>, stack: array<word>, mem: Memory, sys: Syscalls)
      requires stack.Length == STACK_MAX
      ensures this.text == text && this.stack == stack && this.mem == mem && this.sys == sys
      ensures sp == 0 && pc == 0
    {
      this.text, this.stack, this.mem, this.sys := text, stack, mem, sys;
      sp, pc := 0, 0;
    }

    ghost predicate Valid()
      reads this
    {
      stack.Length == STACK_MAX && sp <= STACK_MAX && text as object != stack
    }

    ghost function Abs(): (s: State)
      requires Valid()
      reads this, stack
    {
      State(stack[..], sp, mem)
    }

    /** The instruction's effect on the slots and the memory; false if it is undefined. */
    method Execute(i: Instr) returns (ok: bool)
      requires Valid()
      modifies stack, `sp, `mem
      ensures Valid()
      ensures ok == ExecInstr(i, old(Abs()), sys).Some?
      ensures ok ==> Abs() == ExecInstr(i, old(Abs()), sys).value
    {
      hide Apply, Merge, Load, Store, Complement;
      ok := true;
      match i
      case Noop =>
      case Arith(op, w) => ok := OpBinary(op, w);
      case Not(w) =>
        if sp < 1 {
          return false;
        }
        var a := stack[sp - 1];
        stack[sp - 1] := Merge(w, a, Complement(w, a));
      case Ld(w, v) => ok := Push(w, v);
      case LdValue(w, a) => ok := Push(w, Load(mem, w, a));
      case St(w) =>
        if sp < 2 {
          return false;
        }
        mem := Store(mem, w, stack[sp - 2], stack[sp - 1]);
        sp := sp - 1;
      case Pop =>
        if sp < 1 {
          return false;
        }
        sp := sp - 1;
      case Invoke(n) =>
        ghost var given;
        ok, given := OpCall(n);
      case LdStack(w) =>
        if sp < 1 {
          return false;
        }
        var a := stack[sp - 1];
        stack[sp - 1] := Merge(w, a, Load(mem, w, a));
    }

    method OpBinary(op: BinOp, w: Width) returns (ok: bool)
      requires Valid()
      modifies stack, `sp
      ensures Valid()
      ensures ok == ExecInstr(Arith(op, w), old(Abs()), sys).Some?
      ensures ok ==> Abs() == ExecInstr(Arith(op, w), old(Abs()), sys).value
      ensures ok ==> old(sp) >= 2 && sp == old(sp) - 1
      ensures ok ==>
        var a, b := old(stack[sp - 2]), old(stack[sp - 1]);
        Combines(op, w, a, b, Low(w, stack[sp - 1])) && stack[sp - 1] / Mod(w) == a / Mod(w)
    {
      hide Apply, Merge, Combines;
      if sp < 2 {
        return false;
      }
      var a, b := stack[sp - 2], stack[sp - 1];
      match Apply(op, w, a, b)
      case None => ok := false;
      case Some(v) =>
        MergeLow(w, a, v);
        MergeKeeps(w, a, v);
        CombinesExact(op, w, a, b, v);
        stack[sp - 2] := Merge(w, a, v);
        sp := sp - 1;
        ok := true;
    }

    /** Writes the low part of the next slot and takes it. */
    method Push(w: Width, v: word) returns (ok: bool)
      requires Valid()
      modifies stack, `sp
      ensures Valid()
      ensures ok == (old(sp) < STACK_MAX)
      ensures ok ==> sp == old(sp) + 1 && stack[..] == old(stack[..])[old(sp) := Merge(w, old(stack[sp]), v)]
      ensures !ok ==> sp == old(sp) && stack[..] == old(stack[..])
    {
      if sp == STACK_MAX {
        return false;
      }
      stack[sp] := Merge(w, stack[sp], v);
      sp := sp + 1;
      return true;
    }

    /** Pops the arguments last to first, then replaces the callee by its result. `given` is
        what the callee is handed. */
    method OpCall(n: byte) returns (ok: bool, ghost given: seq<word>)
      requires Valid()
      modifies stack, `sp, `mem
      ensures Valid()
      ensures ok == ExecInstr(Invoke(n), old(Abs()), sys).Some?
      ensures ok ==> Abs() == ExecInstr(Invoke(n), old(Abs()), sys).value
      ensures ok == (n <= 16 && old(sp) >= n + 1)
      ensures ok ==>
        var base := old(sp) - n - 1;
        && (if n == 0 then given == [0]
            else |given| == n && forall i :: 0 <= i < n ==> given[i] == old(stack[base + 1 + i]))
        && (stack[base], mem) == sys(old(stack[base]), given, old(mem))
    {
      ok, given := false, [0];
      if n > 16 || sp < n + 1 {
        return;
      }
      var args: seq<word> := [];
      var i := 0;
      var top := sp - 1;
      while i < n
        invariant 0 <= i <= n && top == sp - 1 - i
        invariant args == stack[top + 1..sp]
      {
        args := [stack[top]] + args;
        top := top - 1;
        i := i + 1;
      }
      given := if n == 0 then [0] else args;
      var (r, m) := sys(stack[top], if n == 0 then [0] else args, mem);
      stack[top] := r;
      sp := top + 1;
      mem := m;
      ok := true;
    }

    /** Runs the whole segment. It always ends; `ok` says that nothing undefined happened,
        and then the state is the one the segment's instructions lead to. */
    method Run() returns (ok: bool)
      requires Valid()
      modifies stack, `sp, `pc, `mem
      ensures Valid()
      ensures ok == Bytecode.Run(text[..], old(Abs()).(sp := 0), sys).Some?
      ensures ok ==> Abs() == Bytecode.Run(text[..], old(Abs()).(sp := 0), sys).value
    {
      hide ExecInstr, Decode, Operand;
      sp, pc := 0, 0;
      ghost var goal := Bytecode.Run(text[..], Abs(), sys);
      assert text[0..] == text[..];
      while pc < text.Length
        invariant Valid() && text[..] == old(text[..])
        invariant pc <= text.Length && Bytecode.Run(text[pc..], Abs(), sys) == goal
        decreases text.Length - pc
      {
        var rest := text[pc + 1..];
        assert text[pc..][0] == text[pc] && text[pc..][1..] == rest;
        match Decode(text[pc], rest)
        case None => return false;
        case Some(i) =>
          var next := pc + 1 + |Operand(i)|;
          assert text[pc..][1 + |Operand(i)|..] == text[next..];
          ok := Execute(i);
          if !ok {
            return;
          }
          pc := next;
      }
      ok := true;
    }
  }
}
