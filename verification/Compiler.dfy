/** The compiler as it runs: annotation updates the pool in place, code generation writes
    through a moving position into the fixed text segment. */
module Compiler {
  import opened Words
  import opened Ast
  import opened Bytecode
  import opened Semantics
  import opened CodeGen

  ghost predicate SameOutside(p: seq<Node>, q: seq<Node>, refs: set<nat>) {
    |p| == |q| && forall r :: 0 <= r < |p| && r !in refs ==> q[r] == p[r]
  }

  lemma RepParts(p: seq<Node>, t: Tree)
    requires Rep(p, t) && Unshared(t) && t.Cons?
    ensures t.ref < |p| && p[t.ref] == Node(t.cell, Root(t.child), Root(t.sibling))
    ensures Rep(p, t.child) && Rep(p, t.sibling) && Unshared(t.child) && Unshared(t.sibling)
  {
  }

  lemma OutsideDone(p: seq<Node>, q: seq<Node>, r: seq<Node>, t: Tree, n: Node)
    requires t.Cons? && SameOutside(p, q, Refs(t.child)) && SameOutside(q, r, Refs(t.sibling)) && t.ref < |r|
    ensures SameOutside(p, r[t.ref := n], Refs(t))
  {
  }

  lemma AnnotatedCell(t: Tree, isAddr: bool)
    requires t.Cons?
    ensures var child := Annotate(t.child, ChildMode(t.cell.kind, isAddr));
            && Annotate(t, isAddr).Cons?
            && Annotate(t, isAddr).cell ==
              Flagged(t.cell, isAddr).(dataType := if child.Nil? then LeafType(t.cell) else child.cell.dataType)
  {
  }

  lemma NothingAnnotated(isAddr: bool)
    ensures Annotate(Nil, isAddr) == Nil && forall p :: Rep(p, Nil)
  {
  }

  lemma ChildDone(p: seq<Node>, q: seq<Node>, t: Tree)
    requires t.Cons? && Rep(p, t) && Unshared(t) && SameOutside(p, q, Refs(t.child))
    ensures t.ref < |q| && q[t.ref] == Node(t.cell, Root(t.child), Root(t.sibling)) && Rep(q, t.sibling)
  {
    RepFrame(p, q, t.sibling);
  }

  lemma SiblingDone(p: seq<Node>, q: seq<Node>, t: Tree, mode: bool)
    requires t.Cons? && t.ref < |p| && Unshared(t) && Rep(p, Annotate(t.child, mode))
    requires SameOutside(p, q, Refs(t.sibling))
    ensures q[t.ref] == p[t.ref] && Rep(q, Annotate(t.child, mode))
    ensures t.child.Cons? ==>
      && t.child.ref < |q|
      && t.child.ref != t.ref
      && q[t.child.ref].cell == Annotate(t.child, mode).cell
  {
    AnnotateRefs(t.child, mode);
    RepFrame(p, q, Annotate(t.child, mode));
  }

  lemma NodeDone(p: seq<Node>, q: seq<Node>, t: Tree, isAddr: bool)
    requires t.Cons? && t.ref < |p| && Unshared(t)
    requires Rep(p, Annotate(t.child, ChildMode(t.cell.kind, isAddr))) && Rep(p, Annotate(t.sibling, false))
    requires q == p[t.ref := Node(Annotate(t, isAddr).cell, Root(t.child), Root(t.sibling))]
    ensures Rep(q, Annotate(t, isAddr))
  {
    AnnotateRefs(t.child, ChildMode(t.cell.kind, isAddr));
    AnnotateRefs(t.sibling, false);
    RepFrame(p, q, Annotate(t.child, ChildMode(t.cell.kind, isAddr)));
    RepFrame(p, q, Annotate(t.sibling, false));
  }

  /** Two pieces of code written one after the other. */
  lemma InSequence(w0: seq<byte>, w1: seq<byte>, w2: seq<byte>, a: seq<Instr>, b: seq<Instr>)
    requires w1 == w0 + EncodeAll(a) && w2 == w1 + EncodeAll(b)
    ensures w2 == w0 + EncodeAll(a + b)
  {
    EncodeAppend(a, b);
    hide EncodeAll;
    assert w0 + EncodeAll(a) + EncodeAll(b) == w0 + (EncodeAll(a) + EncodeAll(b));
  }

  class Compiler {
    const pool: array<Node>
    const text: array<byte>
    var pc: nat
    var errno: Errno
    var overrun: bool
    ghost var out: seq<byte>

    constructor (pool: array<Node>, text: array<byte>)
      requires text.Length == TEXT_MAX
      ensures this.pool == pool && this.text == text && pc == 0 && errno == Ok
    {
      this.pool, this.text, pc, errno, overrun, out := pool, text, 0, Ok, false, [];
    }

    // ----- annotation -----

    /** Annotates the chain at `node` in place; t is the tree the pool holds there. */
    method TypeCheck(node: Ref, isAddr: bool, ghost t: Tree)
      requires node == Root(t) && Rep(pool[..], t) && Unshared(t)
      modifies pool, `errno
      ensures Rep(pool[..], Annotate(t, isAddr))
      ensures SameOutside(old(pool[..]), pool[..], Refs(t))
      ensures errno == Report(old(errno), AnnotateError(t))
      decreases t
    {
      hide LeafType, Flagged, Untyped, Rep, Unshared, Refs, Annotate;
      NothingAnnotated(isAddr);
      if node.Some? {
        RepParts(pool[..], t);
        var n, kind := node.value, pool[node.value].cell.kind;
        ghost var start, mode := pool[..], ChildMode(kind, isAddr);
        if WantsAddress(kind) {
          TypeCheck(pool[n].child, true, t.child);
        } else if kind.GetValue? && isAddr {
          TypeCheck(pool[n].child, false, t.child);
        } else {
          TypeCheck(pool[n].child, isAddr, t.child);
        }
        ghost var first := pool[..];
        ChildDone(start, first, t);

        TypeCheck(pool[n].sibling, false, t.sibling);
        ghost var second := pool[..];
        SiblingDone(first, second, t, mode);

        SetAttributes(n, isAddr, t, Annotate(t.child, mode));
        AnnotatedCell(t, isAddr);
        NodeDone(second, pool[..], t, isAddr);
        OutsideDone(start, first, second, t, pool[n]);
      }
    }

    /** The node's own part: address flag, then the data type of its child or of itself. */
    method SetAttributes(n: nat, isAddr: bool, ghost t: Tree, ghost child: Tree)
      requires t.Cons? && n == t.ref < pool.Length
      requires pool[n] == Node(t.cell, Root(child), Root(t.sibling))
      requires child.Cons? ==> child.ref < pool.Length && child.ref != n && pool[child.ref].cell == child.cell
      modifies pool, `errno
      ensures pool[..] == old(pool[..])[n := Node(
                Flagged(t.cell, isAddr).(dataType := if child.Nil? then LeafType(t.cell) else child.cell.dataType),
                Root(child), Root(t.sibling))]
      ensures errno == Report(old(errno), if child.Nil? && Untyped(t.cell) then Some(UnknownType) else None)
    {
      var c := pool[n].cell;
      if !(c.idKind == Some(SysCall) && !c.isAddress) {
        c := c.(isAddress := c.isAddress || isAddr);
      }
      if pool[n].child.Some? {
        c := c.(dataType := pool[pool[n].child.value].cell.dataType);
      } else {
        match c.kind
        case Ident =>
          if c.sym.Some? && c.idKind.Some? && !c.idKind.value.SysCall? {
            match TypeCode(c.sym.value.typ)
            case None => errno := UnknownType;
            case Some(code) => c := c.(dataType := code);
          }
        case CharValue => c := c.(dataType := 1);
        case IntValue => c := c.(dataType := 3);
        case LongValue => c := c.(dataType := 3);
        case StringValue => c := c.(dataType := 3);
        case NullValue => c := c.(dataType := 3);
        case _ =>
      }
      pool[n] := pool[n].(cell := c);
    }

    // ----- emission -----

    /** `out` is what has been emitted. The segment holds as much of it as fits and zeros
        behind it; `overrun` records a byte that went past its end. */
    ghost predicate Synced()
      reads `pc, `out, `overrun, text
    {
      && pc == |out| && overrun == (pc > text.Length)
      && (forall k :: 0 <= k < pc && k < text.Length ==> text[k] == out[k])
      && (forall k :: pc <= k < text.Length ==> text[k] == 0)
    }

    method CodeByte(b: byte)
      requires Synced()
      modifies text, `pc, `out, `overrun
      ensures Synced() && out == old(out) + [b]
    {
      if pc < text.Length {
        text[pc] := b;
      } else {
        overrun := true;
      }
      pc := pc + 1;
      out := out + [b];
    }

    method CodeWord(v: word)
      requires Synced()
      modifies text, `pc, `out, `overrun
      ensures Synced() && out == old(out) + Bytes2(v)
    {
      hide Synced;
      CodeByte(v % 256);
      CodeByte(v / 256 % 256);
    }

    method CodeDword(v: word)
      requires Synced()
      modifies text, `pc, `out, `overrun
      ensures Synced() && out == old(out) + Bytes4(v)
    {
      hide Synced;
      CodeByte(v % 256);
      CodeByte(v / 256 % 256);
      CodeByte(v / 256 / 256 % 256);
      CodeByte(v / 256 / 256 / 256 % 256);
    }

    /** One opcode byte and its operand. */
    method Emit(i: Instr)
      requires Synced()
      modifies text, `pc, `out, `overrun
      ensures Synced() && out == old(out) + EncodeAll([i])
    {
      hide Synced, Opcode, Bytes2, Bytes4, EncodeAll;
      EncodeOne(i);
      CodeByte(Opcode(i));
      if i.Ld? && i.w.Byte? {
        CodeByte(i.v % 256);
      } else if i.Ld? && i.w.Half? {
        CodeWord(i.v);
      } else if i.Ld? {
        CodeDword(i.v);
      } else if i.LdValue? {
        CodeDword(i.addr);
      } else if i.Invoke? {
        CodeByte(i.n);
      }
    }

    /** Load, step by one, store: the middle of every increment and decrement. */
    method EmitStep(up: bool, w: Width, a: word)
      requires Synced()
      modifies text, `pc, `out, `overrun
      ensures Synced() && out == old(out) + EncodeAll(CompStep(up, w, a))
    {
      var (i, j, k, l) := (LdValue(w, a), Ld(w, 1), Arith(StepOp(up), w), St(w));
      assert CompStep(up, w, a) == [i] + [j] + [k] + [l];
      EncodeAppend([i], [j]);
      EncodeAppend([i] + [j], [k]);
      EncodeAppend([i] + [j] + [k], [l]);
      EncodeOne(i);
      EncodeOne(j);
      EncodeOne(k);
      EncodeOne(l);
      hide Synced, Encode, EncodeAll;
      ghost var w0 := out;
      Emit(i);
      ghost var w1 := out;
      Emit(j);
      ghost var w2 := out;
      InSequence(w0, w1, w2, [i], [j]);
      Emit(k);
      ghost var w3 := out;
      InSequence(w0, w2, w3, [i] + [j], [k]);
      Emit(l);
      InSequence(w0, w3, out, [i] + [j] + [k], [l]);
    }

    /** The instruction an identifier loads itself with. */
    method EmitIdent(c: Cell)
      requires Synced()
      modifies text, `pc, `out, `overrun
      ensures Synced() && out == old(out) + EncodeAll(IdentCode(c))
    {
      if c.sym.Some? {
        var s := c.sym.value;
        EncodeOne(Ld(Dword, s.addr));
        if c.idKind == Some(SysCall) {
          Emit(Ld(Dword, s.addr));
        } else {
          match LoadWidth(s.typ)
          case None =>
          case Some(w) =>
            EncodeOne(LdValue(w, s.addr));
            if c.isAddress {
              Emit(Ld(Dword, s.addr));
            } else {
              Emit(LdValue(w, s.addr));
            }
        }
      }
    }

    /** Parameters of a call: the siblings of the callee. */
    method CountParameters(first: Ref, ghost t: Tree) returns (parameters: nat)
      requires first == Root(t) && Rep(pool[..], t)
      ensures parameters == Siblings(t)
    {
      var sibling := first;
      ghost var u := t;
      parameters := 0;
      while sibling.Some?
        invariant sibling == Root(u) && Rep(pool[..], u)
        invariant parameters + Siblings(u) == Siblings(t)
        decreases u
      {
        parameters := parameters + 1;
        sibling := pool[sibling.value].sibling;
        u := u.sibling;
      }
    }

    /** Load the address again after a pre-step, or drop it after a post-step. */
    method EmitPreStep(up: bool, w: Width, a: word)
      requires Synced()
      modifies text, `pc, `out, `overrun
      ensures Synced() && out == old(out) + EncodeAll(CompStep(up, w, a) + [LdStack(Dword)])
    {
      hide Synced, Encode, EncodeAll, CompStep;
      EncodeAppend(CompStep(up, w, a), [LdStack(Dword)]);
      EncodeOne(LdStack(Dword));
      ghost var w0 := out;
      EmitStep(up, w, a);
      ghost var w1 := out;
      Emit(LdStack(Dword));
      InSequence(w0, w1, out, CompStep(up, w, a), [LdStack(Dword)]);
    }

    method EmitPostStep(up: bool, w: Width, a: word)
      requires Synced()
      modifies text, `pc, `out, `overrun
      ensures Synced() && out == old(out) + EncodeAll([Ld(Dword, a)] + CompStep(up, w, a) + [Pop])
    {
      hide Synced, Encode, EncodeAll, CompStep;
      EncodeAppend([Ld(Dword, a)], CompStep(up, w, a));
      EncodeAppend([Ld(Dword, a)] + CompStep(up, w, a), [Pop]);
      EncodeOne(Ld(Dword, a));
      EncodeOne(Pop);
      ghost var w0 := out;
      Emit(Ld(Dword, a));
      ghost var w1 := out;
      EmitStep(up, w, a);
      ghost var w2 := out;
      InSequence(w0, w1, w2, [Ld(Dword, a)], CompStep(up, w, a));
      Emit(Pop);
      InSequence(w0, w2, out, [Ld(Dword, a)] + CompStep(up, w, a), [Pop]);
    }

    /** Store through the address below the value, then read the stored value back. */
    method EmitStore(w: Width)
      requires Synced()
      modifies text, `pc, `out, `overrun
      ensures Synced() && out == old(out) + EncodeAll([St(w), LdStack(w)])
    {
      hide Synced, Encode, EncodeAll;
      assert [St(w), LdStack(w)] == [St(w)] + [LdStack(w)];
      EncodeAppend([St(w)], [LdStack(w)]);
      EncodeOne(St(w));
      EncodeOne(LdStack(w));
      ghost var w0 := out;
      Emit(St(w));
      ghost var w1 := out;
      Emit(LdStack(w));
      InSequence(w0, w1, out, [St(w)], [LdStack(w)]);
    }

    method EmitNoops()
      requires Synced()
      modifies text, `pc, `out, `overrun
      ensures Synced() && out == old(out) + EncodeAll([Noop, Noop, Noop, Noop])
    {
      assert EncodeAll([Noop, Noop, Noop, Noop]) == [0, 0, 0, 0] == Bytes4(0) by {
        assert [Noop, Noop, Noop, Noop][1..] == [Noop, Noop, Noop];
        assert [Noop, Noop, Noop][1..] == [Noop, Noop];
        assert [Noop, Noop][1..] == [Noop];
        EncodeOne(Noop);
      }
      CodeDword(0);
    }

    method EmitOne(i: Instr)
      requires Synced()
      modifies text, `pc, `out, `overrun
      ensures Synced() && out == old(out) + EncodeAll([i])
    {
      EncodeOne(i);
      Emit(i);
    }

    /** The switch over node types. */
    method EmitOwn(n: nat, ghost t: Tree)
      requires t.Cons? && t.ref == n && Rep(pool[..], t)
      requires Synced()
      modifies text, `pc, `out, `overrun, `errno
      ensures Synced() && out == old(out) + EncodeAll(Own(t.cell, t.child))
      ensures errno == Report(old(errno), OwnError(t.cell, t.child))
    {
      hide Synced, EncodeAll, Encode, CompStep, IdentCode, WidthOf;
      NothingEncoded();
      var c := pool[n].cell;
      var w := WidthOf(c.dataType);
      match c.kind
      case Ident => EmitIdent(c);
      case CharValue => EmitOne(Ld(Byte, c.value % 256));
      case IntValue => EmitOne(Ld(Dword, c.value));
      case LongValue => EmitOne(Ld(Dword, c.value));
      case StringValue => EmitOne(Ld(Dword, c.value));
      case NullValue => EmitOne(Ld(Dword, c.value));
      case Binary(op) =>
        if w.Some? {
          EmitOne(Arith(op, w.value));
        }
      case Complemented =>
        if w.Some? {
          EmitOne(Not(w.value));
        }
      case Func =>
        if pool[n].child.Some? {
          var parameters := CountParameters(pool[pool[n].child.value].sibling, t.child.sibling);
          EmitOne(Invoke(parameters % 256));
        }
      case Assigned => EmitAssign(pool[n].child, t.child);
      case PreStep(up) =>
        var a := FindSlot(pool[n].child, t.child);
        if a.Some? && w.Some? {
          EmitPreStep(up, w.value, a.value);
        }
      case PostStep(up) =>
        var a := FindSlot(pool[n].child, t.child);
        if a.Some? && w.Some? {
          EmitPostStep(up, w.value, a.value);
        }
      case SysNull => EmitNoops();
      case GetValue =>
        if !c.isAddress && w.Some? {
          EmitOne(LdStack(w.value));
        }
      case GetAddr =>
      case _ => errno := UnknownNode;
    }

    method FindSlot(child: Ref, ghost t: Tree) returns (a: Option<word>)
      requires child == Root(t) && Rep(pool[..], t)
      ensures a == StepSlot(t)
    {
      a := None;
      if child.Some? && pool[child.value].cell.kind.Ident? && pool[child.value].cell.sym.Some? {
        a := Some(pool[child.value].cell.sym.value.slot);
      }
    }

    method EmitAssign(child: Ref, ghost t: Tree)
      requires child == Root(t) && Rep(pool[..], t)
      requires Synced()
      modifies text, `pc, `out, `overrun, `errno
      ensures Synced() && out == old(out) + EncodeAll(Own(SysCell(Assigned), t))
      ensures errno == Report(old(errno), OwnError(SysCell(Assigned), t))
    {
      hide Synced, EncodeAll, Encode, WidthOf;
      NothingEncoded();
      if child.Some? {
        var c := pool[child.value].cell;
        if c.kind.Ident? || c.kind.GetValue? {
          var w := WidthOf(if c.kind.Ident? then c.dataType else c.dataType % 16);
          if w.Some? {
            EmitStore(w.value);
          } else {
            errno := UnknownType;
          }
        }
      }
    }

    /** Code of the chain at `node`: children, node, siblings. */
    method Compile(node: Ref, ghost t: Tree)
      requires node == Root(t) && Rep(pool[..], t)
      requires Synced()
      modifies text, `pc, `out, `overrun, `errno
      ensures Synced() && out == old(out) + EncodeAll(Code(t))
      ensures errno == Report(old(errno), CodeError(t))
      decreases t
    {
      hide Synced, EncodeAll, Own, OwnError;
      NothingEncoded();
      if node.Some? {
        var n := node.value;
        ghost var own := Own(t.cell, t.child);
        EncodeAppend(Code(t.child), own);
        EncodeAppend(Code(t.child) + own, Code(t.sibling));
        ghost var w0 := out;
        Compile(pool[n].child, t.child);
        ghost var w1 := out;
        EmitOwn(n, t);
        ghost var w2 := out;
        InSequence(w0, w1, w2, Code(t.child), own);
        Compile(pool[n].sibling, t.sibling);
        InSequence(w0, w2, out, Code(t.child) + own, Code(t.sibling));
      }
    }

    /** Annotates the whole line, clears the segment and the bottom stack slot, and compiles
        statement by statement, detaching each from its successors and popping its value. */
    method Run(root: Ref, stack: array<word>, ghost t: Tree)
      requires root == Root(t) && Rep(pool[..], t) && Unshared(t)
      requires stack.Length > 0 && text.Length == TEXT_MAX && text as object != stack
      modifies pool, text, stack, `pc, `out, `overrun, `errno
      ensures Synced() && out == EncodeAll(LineCode(Annotate(t, false)))
      ensures errno == Report(Report(old(errno), AnnotateError(t)), CodeError(Annotate(t, false)))
      ensures stack[..] == old(stack[..])[0 := 0]
    {
      TypeCheck(root, false, t);
      AnnotateRefs(t, false);
      Clear(stack);
      CompileLine(root, Annotate(t, false));
    }

    method Clear(stack: array<word>)
      requires stack.Length > 0 && text as object != stack
      modifies text, stack, `pc, `out, `overrun
      ensures Synced() && out == [] && stack[..] == old(stack[..])[0 := 0]
    {
      for k := 0 to text.Length
        invariant forall j :: 0 <= j < k ==> text[j] == 0
        invariant stack[..] == old(stack[..])
      {
        text[k] := 0;
      }
      stack[0] := 0;
      pc, out, overrun := 0, [], false;
    }

    method CompileLine(root: Ref, ghost line: Tree)
      requires root == Root(line) && Rep(pool[..], line) && Unshared(line)
      requires Synced() && out == []
      modifies pool, text, `pc, `out, `overrun, `errno
      ensures Synced() && out == EncodeAll(LineCode(line))
      ensures errno == Report(old(errno), CodeError(line))
    {
      hide Synced, EncodeAll, Own, OwnError;
      ghost var done, u := [], line;
      NothingEncoded();
      assert [] + LineCode(line) == LineCode(line);
      var sibling := root;
      while sibling.Some?
        invariant sibling == Root(u) && Rep(pool[..], u) && Unshared(u)
        invariant LineCode(line) == done + LineCode(u)
        invariant Synced() && out == EncodeAll(done)
        invariant Report(errno, CodeError(u)) == Report(old(errno), CodeError(line))
        decreases u
      {
        var current := sibling;
        sibling := pool[current.value].sibling;
        ghost var before := pool[..];
        pool[current.value] := pool[current.value].(sibling := None);
        Detached(before, pool[..], u);
        CompileStatement(current, sibling, u, done, line);
        done := done + NodeCode(u) + if u.sibling.Nil? then [] else [Pop];
        u := u.sibling;
      }
      assert done + [] == done;
    }

    /** One statement and, unless it is the last, the pop of its value. */
    method CompileStatement(current: Ref, next: Ref, ghost u: Tree, ghost done: seq<Instr>, ghost line: Tree)
      requires u.Cons? && current == Root(u) && next == Root(u.sibling) && Rep(pool[..], u.(sibling := Nil))
      requires LineCode(line) == done + LineCode(u)
      requires Synced() && out == EncodeAll(done)
      modifies text, `pc, `out, `overrun, `errno
      ensures Synced()
      ensures out == EncodeAll(done + NodeCode(u) + if u.sibling.Nil? then [] else [Pop])
      ensures LineCode(line) == (done + NodeCode(u) + if u.sibling.Nil? then [] else [Pop]) + LineCode(u.sibling)
      ensures errno == Report(old(errno), NodeError(u))
    {
      hide Synced, EncodeAll, Own, OwnError;
      NothingEncoded();
      EncodeOne(Pop);
      CodeOfNode(u.(sibling := Nil));
      ghost var pop, rest := if u.sibling.Nil? then [] else [Pop], LineCode(u.sibling);
      assert LineCode(line) == done + NodeCode(u) + pop + rest;
      EncodeAppend(done, NodeCode(u));
      EncodeAppend(done + NodeCode(u), pop);
      EncodeAppend(done + NodeCode(u) + pop, rest);
      assert |Encode(Pop)| == 1;
      Compile(current, u.(sibling := Nil));
      if next.Some? {
        Emit(Pop);
      }
    }
  }

  /** Cutting a statement's sibling link leaves it and its successors intact. */
  lemma Detached(p: seq<Node>, q: seq<Node>, u: Tree)
    requires u.Cons? && Rep(p, u) && Unshared(u) && q == p[u.ref := p[u.ref].(sibling := None)]
    ensures Rep(q, u.(sibling := Nil)) && Rep(q, u.sibling)
  {
    RepFrame(p, q, u.child);
    RepFrame(p, q, u.sibling);
  }

  lemma NothingEncoded()
    ensures EncodeAll([]) == []
  {
  }
}
