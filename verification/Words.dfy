/** Machine arithmetic of the 32-bit target: little-endian bytes, the three operand
    widths of the byte code, and a byte-addressed data memory.

    Words are kept as naturals; every wrap-around and every sign interpretation is
    written out. On this target plain `char` is unsigned, `short` and `long` are signed. */
module Words {

  datatype Option<+T> = None | Some(value: T)

  const WORD_MOD := 0x1_0000_0000

  type byte = x: int | 0 <= x < 256
  type word = x: int | 0 <= x < 0x1_0000_0000

  datatype Width = Byte | Half | Dword

  function Mod(w: Width): (r: int)
    ensures 0 < r <= WORD_MOD
  {
    match w
    case Byte => 256
    case Half => 0x1_0000
    case Dword => 0x1_0000_0000
  }

  function Low(w: Width, v: int): (r: word)
    ensures r < Mod(w)
    ensures 0 <= v < Mod(w) ==> r == v
  {
    match w
    case Byte => v % 256
    case Half => v % 0x1_0000
    case Dword => v % 0x1_0000_0000
  }

  /** a <= b as operand widths. */
  predicate Within(a: Width, b: Width) {
    a.Byte? || b.Dword? || a == b
  }

  /** Writing a union member of width w leaves the upper part of the slot alone. */
  function Merge(w: Width, slot: word, v: word): (r: word)
  {
    match w
    case Byte => assert slot / 256 <= 0xFF_FFFF; 256 * (slot / 256) + v % 256
    case Half => assert slot / 0x1_0000 <= 0xFFFF; 0x1_0000 * (slot / 0x1_0000) + v % 0x1_0000
    case Dword => v
  }

  lemma MergeLow(w: Width, slot: word, v: word)
    ensures Low(w, Merge(w, slot, v)) == Low(w, v)
  {
    match w
    case Byte => DivUnique(Merge(w, slot, v), 256, slot / 256, v % 256);
    case Half => DivUnique(Merge(w, slot, v), 0x1_0000, slot / 0x1_0000, v % 0x1_0000);
    case Dword =>
  }

  /** Agreement on a width is agreement on every narrower one. */
  lemma NarrowLow(a: Width, b: Width, x: int, y: int)
    requires Within(a, b) && Low(b, x) == Low(b, y)
    ensures Low(a, x) == Low(a, y)
  {
    var qx, qy, r := x / Mod(b), y / Mod(b), Low(b, x);
    match (a, b) {
      case (Byte, Half) =>
        DivUnique(x, 256, 256 * qx + r / 256, r % 256);
        DivUnique(y, 256, 256 * qy + r / 256, r % 256);
      case (Byte, Dword) =>
        DivUnique(x, 256, 0x100_0000 * qx + r / 256, r % 256);
        DivUnique(y, 256, 0x100_0000 * qy + r / 256, r % 256);
      case (Half, Dword) =>
        DivUnique(x, 0x1_0000, 0x1_0000 * qx + r / 0x1_0000, r % 0x1_0000);
        DivUnique(y, 0x1_0000, 0x1_0000 * qy + r / 0x1_0000, r % 0x1_0000);
      case _ =>
    }
  }

  lemma DivUnique(x: int, d: int, q: int, r: int)
    requires 0 <= r < d && x == d * q + r
    ensures x / d == q && x % d == r
  {
    QuotientBound(d, q, r, x / d, x % d);
    QuotientBound(d, x / d, x % d, q, r);
  }

  lemma QuotientBound(d: int, q: int, r: int, q': int, r': int)
    requires 0 <= r < d && 0 <= r' < d && d * q + r == d * q' + r'
    ensures q <= q'
  {
    if q > q' {
      Scaled(d, q, q');
    }
  }

  lemma Scaled(d: int, a: int, b: int)
    requires d > 0 && a > b
    ensures d * a >= d * b + d
    decreases a - b
  {
    assert d * a == d * (a - 1) + d;
    if a - 1 > b {
      Scaled(d, a - 1, b);
    }
  }

  // ----- operators -----

  datatype BinOp = Add | Sub | Mul | Div | Rem | And | Or | Xor | Shl | Shr

  /** The value a union member of width w denotes once promoted to `int`. */
  function Promote(w: Width, v: word): (r: int)
  {
    match w
    case Byte => v % 256
    case Half => if v % 0x1_0000 < 0x8000 then v % 0x1_0000 else v % 0x1_0000 - 0x1_0000
    case Dword => if v < 0x8000_0000 then v else v - 0x1_0000_0000
  }

  function Pow2(n: nat): (r: nat)
    ensures r > 0
  {
    if n == 0 then 1 else 2 * Pow2(n - 1)
  }

  /** C division truncates toward zero. */
  function TruncDiv(a: int, b: int): (r: int)
    requires b != 0
  {
    if a >= 0 then a / b else -((-a) / b)
  }

  function BitOp(op: BinOp, a: nat, b: nat, bits: nat): (r: nat)
    requires op.And? || op.Or? || op.Xor?
  {
    if bits == 0 then 0
    else
      var x, y := a % 2 == 1, b % 2 == 1;
      var z := if op.And? then x && y else if op.Or? then x || y else x != y;
      2 * BitOp(op, a / 2, b / 2, bits - 1) + if z then 1 else 0
  }

  /** One binary instruction at width w: both operands are read through the union member
      of that width, promoted, combined, and the result truncated back. `None` is
      undefined behaviour: division by zero, LONG_MIN / -1, a shift count outside 0..31. */
  function Apply(op: BinOp, w: Width, a: word, b: word): (r: Option<word>)
    ensures r.Some? ==> r.value < Mod(w)
  {
    var x, y := Promote(w, a), Promote(w, b);
    match op
    case Add => Some(Low(w, x + y))
    case Sub => Some(Low(w, x - y))
    case Mul => Some(Low(w, x * y))
    case Div => if y == 0 || (x == -0x8000_0000 && y == -1) then None else Some(Low(w, TruncDiv(x, y)))
    case Rem => if y == 0 || (x == -0x8000_0000 && y == -1) then None else Some(Low(w, x - TruncDiv(x, y) * y))
    case And => Some(Low(w, BitOp(And, Low(w, a), Low(w, b), 32)))
    case Or => Some(Low(w, BitOp(Or, Low(w, a), Low(w, b), 32)))
    case Xor => Some(Low(w, BitOp(Xor, Low(w, a), Low(w, b), 32)))
    case Shl => if 0 <= y < 32 then Some(Low(w, x * Pow2(y))) else None
    case Shr => if 0 <= y < 32 then Some(Low(w, x / Pow2(y))) else None
  }

  /** An instruction sees no more of its operands than its width. */
  lemma ApplyLow(op: BinOp, w: Width, a: word, b: word, a': word, b': word)
    requires Low(w, a) == Low(w, a') && Low(w, b) == Low(w, b')
    ensures Apply(op, w, a, b) == Apply(op, w, a', b')
  {
    assert Promote(w, a) == Promote(w, a') && Promote(w, b) == Promote(w, b');
  }

  function Complement(w: Width, a: word): (r: word)
    ensures r < Mod(w)
  {
    Mod(w) - 1 - Low(w, a)
  }

  // ----- bytes -----

  function Bytes2(v: word): (r: seq<byte>)
    ensures |r| == 2
  {
    [v % 256, v / 256 % 256]
  }

  function Bytes4(v: word): (r: seq<byte>)
    ensures |r| == 4
  {
    [v % 256, v / 256 % 256, v / 256 / 256 % 256, v / 256 / 256 / 256 % 256]
  }

  function FromBytes2(b0: byte, b1: byte): (r: word)
    ensures r < 0x1_0000
  {
    b0 + 256 * b1
  }

  function FromBytes4(b0: byte, b1: byte, b2: byte, b3: byte): (r: word)
  {
    b0 + 256 * (b1 + 256 * (b2 + 256 * b3))
  }

  lemma BytesRoundTrip(v: word)
    ensures FromBytes4(Bytes4(v)[0], Bytes4(v)[1], Bytes4(v)[2], Bytes4(v)[3]) == v
    ensures FromBytes2(Bytes2(v)[0], Bytes2(v)[1]) == v % 0x1_0000
  {
    var q1, q2, q3 := v / 256, v / 256 / 256, v / 256 / 256 / 256;
    assert v == 256 * q1 + v % 256 && q1 == 256 * q2 + q1 % 256 && q2 == 256 * q3 + q2 % 256;
    assert q3 < 256 && q3 % 256 == q3;
    DivUnique(v, 0x1_0000, q2, 256 * (q1 % 256) + v % 256);
  }

  lemma FourBytes(b0: byte, b1: byte, b2: byte, b3: byte)
    ensures Bytes4(FromBytes4(b0, b1, b2, b3)) == [b0, b1, b2, b3]
  {
    var v2 := b2 + 256 * b3;
    var v1 := b1 + 256 * v2;
    DivUnique(b0 + 256 * v1, 256, v1, b0);
    DivUnique(v1, 256, v2, b1);
    DivUnique(v2, 256, b3, b2);
  }

  // ----- data memory -----

  type Memory = map<word, byte>

  function Peek(m: Memory, a: word): byte {
    if a in m then m[a] else 0
  }

  /** The address i bytes after a, in 32-bit pointer arithmetic. */
  function At(a: word, i: nat): word {
    (a + i) % WORD_MOD
  }

  function Load(m: Memory, w: Width, a: word): (r: word)
    ensures r < Mod(w)
  {
    match w
    case Byte => Peek(m, a)
    case Half => FromBytes2(Peek(m, a), Peek(m, At(a, 1)))
    case Dword => FromBytes4(Peek(m, a), Peek(m, At(a, 1)), Peek(m, At(a, 2)), Peek(m, At(a, 3)))
  }

  function Store(m: Memory, w: Width, a: word, v: word): (r: Memory)
  {
    match w
    case Byte => m[a := v % 256]
    case Half => m[a := v % 256][At(a, 1) := v / 256 % 256]
    case Dword =>
      var b := Bytes4(v);
      m[a := b[0]][At(a, 1) := b[1]][At(a, 2) := b[2]][At(a, 3) := b[3]]
  }

  lemma LoadStore(m: Memory, w: Width, a: word, v: word)
    ensures Load(Store(m, w, a, v), w, a) == Low(w, v)
  {
    BytesRoundTrip(v);
  }

  /** A wider little-endian load agrees with a narrower one on the narrow part. */
  lemma LoadNarrow(m: Memory, w: Width, a: word)
    ensures Low(w, Load(m, Dword, a)) == Load(m, w, a)
  {
    var b0: int, b1: int, b2: int, b3: int := Peek(m, a), Peek(m, At(a, 1)), Peek(m, At(a, 2)), Peek(m, At(a, 3));
    match w
    case Byte => DivUnique(Load(m, Dword, a), 256, b1 + 256 * (b2 + 256 * b3), b0);
    case Half => DivUnique(Load(m, Dword, a), 0x1_0000, b2 + 256 * b3, b0 + 256 * b1);
    case Dword =>
  }
}
