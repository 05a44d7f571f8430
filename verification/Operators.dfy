/** What the binary operators compute: a relation between operands and result for each of
    them, which the results of the machine meet and nothing else does. */
module Operators {
  import opened Words

  // ----- words as numbers -----

  /** The two numbers are the same word of width w. */
  predicate Same(w: Width, x: int, y: int) {
    (x - y) % Mod(w) == 0
  }

  /** x is what a union member of width w that holds v stands for: a byte is unsigned, wider
      members are signed. */
  predicate Denotes(w: Width, v: word, x: int) {
    && Same(w, x, v)
    && match w
       case Byte => 0 <= x < 0x100
       case Half => -0x8000 <= x < 0x8000
       case Dword => -0x8000_0000 <= x < 0x8000_0000
  }

  lemma SameSelf(w: Width, x: int)
    ensures Same(w, x, x)
  {
  }

  lemma SameUnique(w: Width, x: int, y: int)
    requires Same(w, x, y) && -Mod(w) < x - y < Mod(w)
    ensures x == y
  {
  }

  lemma SameLow(w: Width, x: int)
    ensures Same(w, Low(w, x), x)
  {
  }

  lemma SameTrans(w: Width, x: int, y: int, z: int)
    requires Same(w, x, y) && Same(w, y, z)
    ensures Same(w, x, z) && Same(w, z, x)
  {
    var m := Mod(w);
    var i, j := (x - y) / m, (y - z) / m;
    assert m * (i + j) == m * i + m * j && m * (-i - j) == -(m * i + m * j);
    DivUnique(x - z, m, i + j, 0);
    DivUnique(z - x, m, -i - j, 0);
  }

  lemma PromoteDenotes(w: Width, v: word)
    ensures Denotes(w, v, Promote(w, v))
  {
    match w
    case Byte => DivUnique(v % 0x100 - v, 0x100, -(v / 0x100), 0);
    case Half =>
      var q := v / 0x1_0000 + if v % 0x1_0000 < 0x8000 then 0 else 1;
      DivUnique(Promote(w, v) - v, 0x1_0000, -q, 0);
    case Dword =>
  }

  /** A promoted operand is the number its word denotes. */
  lemma PromoteExact(w: Width, v: word, x: int)
    ensures Denotes(w, v, x) <==> x == Promote(w, v)
  {
    hide Same, Promote;
    PromoteDenotes(w, v);
    if Denotes(w, v, x) {
      SameSelf(w, v);
      SameTrans(w, Promote(w, v), v, v);
      SameTrans(w, x, v, Promote(w, v));
      SameUnique(w, x, Promote(w, v));
    }
  }

  // ----- bits -----

  /** Bit k of v. */
  predicate Bit(v: nat, k: nat) {
    if k == 0 then v % 2 == 1 else Bit(v / 2, k - 1)
  }

  function Bits(w: Width): nat {
    match w case Byte => 8 case Half => 16 case Dword => 32
  }

  lemma {:induction false} BitOpBit(op: BinOp, a: nat, b: nat, bits: nat, k: nat)
    requires (op.And? || op.Or? || op.Xor?) && k < bits
    ensures op.And? ==> Bit(BitOp(op, a, b, bits), k) == (Bit(a, k) && Bit(b, k))
    ensures op.Or? ==> Bit(BitOp(op, a, b, bits), k) == (Bit(a, k) || Bit(b, k))
    ensures op.Xor? ==> Bit(BitOp(op, a, b, bits), k) == (Bit(a, k) != Bit(b, k))
  {
    if k > 0 {
      BitOpBit(op, a / 2, b / 2, bits - 1, k - 1);
      assert BitOp(op, a, b, bits) / 2 == BitOp(op, a / 2, b / 2, bits - 1);
    }
  }

  lemma Halved(v: nat, n: nat)
    requires n > 0
    ensures v % Pow2(n) / 2 == v / 2 % Pow2(n - 1) && v % Pow2(n) % 2 == v % 2
  {
    var p, q, r := Pow2(n - 1), v / 2 / Pow2(n - 1), v / 2 % Pow2(n - 1);
    assert v == 2 * (p * q + r) + v % 2;
    assert 2 * (p * q) == 2 * p * q;
    DivUnique(v, 2 * p, q, 2 * r + v % 2);
  }

  /** The low bits of a word are bits of it. */
  lemma {:induction false} LowBits(v: nat, n: nat, k: nat)
    requires k < n
    ensures Bit(v % Pow2(n), k) == Bit(v, k)
  {
    Halved(v, n);
    if k > 0 {
      LowBits(v / 2, n - 1, k - 1);
    }
  }

  lemma ModPow2(w: Width)
    ensures Mod(w) == Pow2(Bits(w))
  {
    assert Pow2(8) == 0x100;
    assert Pow2(16) == 0x1_0000;
    assert Pow2(24) == 0x100_0000;
  }

  lemma LowBit(w: Width, v: nat, k: nat)
    requires k < Bits(w)
    ensures Bit(Low(w, v), k) == Bit(v, k)
  {
    hide Bit, Pow2;
    ModPow2(w);
    LowBits(v, Bits(w), k);
  }

  lemma {:induction false} SameBits(x: nat, y: nat, n: nat)
    requires x < Pow2(n) && y < Pow2(n) && forall k :: 0 <= k < n ==> Bit(x, k) == Bit(y, k)
    ensures x == y
  {
    if n > 0 {
      forall k | 0 <= k < n - 1
        ensures Bit(x / 2, k) == Bit(y / 2, k)
      {
        assert Bit(x, k + 1) == Bit(y, k + 1);
      }
      SameBits(x / 2, y / 2, n - 1);
      assert Bit(x, 0) == Bit(y, 0);
    }
  }

  // ----- arithmetic by counting -----

  /** a taken n times. */
  function Repeated(a: int, n: nat): int {
    if n == 0 then 0 else Repeated(a, n - 1) + a
  }

  /** x doubled n times. */
  function Doubled(x: int, n: nat): int {
    if n == 0 then x else 2 * Doubled(x, n - 1)
  }

  lemma {:induction false} RepeatedIs(a: int, n: nat)
    ensures Repeated(a, n) == a * n
  {
    if n > 0 {
      RepeatedIs(a, n - 1);
      assert a * (n - 1) + a == a * n;
    }
  }

  lemma {:induction false} DoubledIs(x: int, n: nat)
    ensures Doubled(x, n) == x * Pow2(n)
  {
    if n > 0 {
      DoubledIs(x, n - 1);
      assert 2 * (x * Pow2(n - 1)) == x * (2 * Pow2(n - 1));
    }
  }

  function Abs(x: int): nat {
    if x < 0 then -x else x
  }

  /** q and r are quotient and remainder of a division that truncates toward zero: the
      remainder is less than the divisor and never of the other sign than the dividend. */
  predicate Truncates(x: int, y: int, q: int, r: int) {
    x == q * y + r && Abs(r) < Abs(y) && (r == 0 || (r < 0) == (x < 0))
  }

  /** q and r are quotient and remainder of a division that rounds down. */
  predicate Floors(x: int, d: int, q: int, r: int) {
    x == q * d + r && 0 <= r < d
  }

  lemma DivisionParts(n: nat, y: int)
    requires y != 0
    ensures n == n / y * y + n % y && 0 <= n % y < Abs(y)
  {
  }

  lemma TruncDivTruncates(x: int, y: int)
    requires y != 0
    ensures Truncates(x, y, TruncDiv(x, y), x - TruncDiv(x, y) * y)
  {
    var n := Abs(x);
    DivisionParts(n, y);
    assert (-(n / y)) * y == -(n / y * y);
  }

  lemma Multiple(k: int, y: int)
    requires k != 0
    ensures Abs(k * y) >= Abs(y)
  {
    var n, d := Abs(k), Abs(y);
    assert n * d >= d by {
      assert n * d == (n - 1) * d + d;
    }
    assert Abs(k * y) == n * d;
  }

  lemma TruncatesUnique(x: int, y: int, q: int, r: int, q': int, r': int)
    requires Truncates(x, y, q, r) && Truncates(x, y, q', r')
    ensures q == q' && r == r'
  {
    assert (q - q') * y == r' - r;
    assert Abs(r' - r) < Abs(y);
    if q != q' {
      Multiple(q - q', y);
    }
  }

  lemma FloorsUnique(x: int, d: int, q: int, r: int, q': int, r': int)
    requires Floors(x, d, q, r) && Floors(x, d, q', r')
    ensures q == q' && r == r'
  {
    DivUnique(x, d, q, r);
    DivUnique(x, d, q', r');
  }

  // ----- the operators -----

  /** Undefined: division by zero, the smallest long divided by -1, and a shift count outside
      0..31. */
  predicate Defined(op: BinOp, x: int, y: int) {
    match op
    case Div => y != 0 && !(x == -0x8000_0000 && y == -1)
    case Rem => y != 0 && !(x == -0x8000_0000 && y == -1)
    case Shl => 0 <= y < 32
    case Shr => 0 <= y < 32
    case _ => true
  }

  /** The result v of an operator on the words a and b, as a word of width w. */
  ghost predicate Computes(op: BinOp, w: Width, a: word, b: word, v: word) {
    var x, y := Promote(w, a), Promote(w, b);
    match op
    case Add => Same(w, v, a + b)
    case Sub => Same(w, v + b, a)
    case Mul => Same(w, v, Repeated(a, b))
    case Div => exists q, r :: Truncates(x, y, q, r) && Same(w, v, q)
    case Rem => exists q, r :: Truncates(x, y, q, r) && Same(w, v, r)
    case And => forall k :: 0 <= k < Bits(w) ==> (Bit(v, k) <==> Bit(a, k) && Bit(b, k))
    case Or => forall k :: 0 <= k < Bits(w) ==> (Bit(v, k) <==> Bit(a, k) || Bit(b, k))
    case Xor => forall k :: 0 <= k < Bits(w) ==> (Bit(v, k) <==> Bit(a, k) != Bit(b, k))
    case Shl => y >= 0 && Same(w, v, Doubled(a, y))
    case Shr => y >= 0 && exists q, r :: Floors(x, Doubled(1, y), q, r) && Same(w, v, q)
  }

  // ----- the results of the machine -----

  lemma SumSame(w: Width, x: int, y: int, a: int, b: int)
    requires Same(w, x, a) && Same(w, y, b)
    ensures Same(w, x + y, a + b) && Same(w, x - y, a - b)
  {
    var m := Mod(w);
    var i, j := (x - a) / m, (y - b) / m;
    assert m * (i + j) == m * i + m * j && m * (i - j) == m * i - m * j;
    DivUnique(x + y - (a + b), m, i + j, 0);
    DivUnique(x - y - (a - b), m, i - j, 0);
  }

  lemma AddComputes(w: Width, a: word, b: word)
    ensures Apply(Add, w, a, b).Some? && Computes(Add, w, a, b, Apply(Add, w, a, b).value)
  {
    hide Same, Promote, Low;
    var x, y := Promote(w, a), Promote(w, b);
    PromoteSame(w, a);
    PromoteSame(w, b);
    SumSame(w, x, y, a, b);
    SameLow(w, x + y);
    SameTrans(w, Low(w, x + y), x + y, a + b);
  }

  lemma SubComputes(w: Width, a: word, b: word)
    ensures Apply(Sub, w, a, b).Some? && Computes(Sub, w, a, b, Apply(Sub, w, a, b).value)
  {
    hide Same, Promote, Low;
    var x, y := Promote(w, a), Promote(w, b);
    PromoteSame(w, a);
    PromoteSame(w, b);
    SumSame(w, x, y, a, b);
    SameLow(w, x - y);
    SameTrans(w, Low(w, x - y), x - y, a - b);
    SameSelf(w, b);
    SumSame(w, Low(w, x - y), b, a - b, b);
  }

  /** Multiples of the modulus in the factors are multiples of it in the product. */
  lemma ProductSame(w: Width, x: int, y: int, a: int, b: int)
    requires Same(w, x, a) && Same(w, y, b)
    ensures Same(w, x * y, a * b)
  {
    var m := Mod(w);
    var i, j := (x - a) / m, (y - b) / m;
    assert x == a + m * i && y == b + m * j;
    var k := a * j + b * i + m * (i * j);
    assert x * y - a * b == m * k by {
      assert x * y == a * b + a * (m * j) + b * (m * i) + m * i * (m * j);
      assert a * (m * j) == m * (a * j) && b * (m * i) == m * (b * i) && m * i * (m * j) == m * (m * (i * j));
    }
    DivUnique(x * y - a * b, m, k, 0);
  }

  lemma PromoteSame(w: Width, v: word)
    ensures Same(w, Promote(w, v), v)
  {
    PromoteExact(w, v, Promote(w, v));
  }

  lemma MulComputes(w: Width, a: word, b: word)
    ensures Apply(Mul, w, a, b).Some? && Computes(Mul, w, a, b, Apply(Mul, w, a, b).value)
  {
    hide Same, Promote, Low;
    var x, y := Promote(w, a), Promote(w, b);
    PromoteSame(w, a);
    PromoteSame(w, b);
    ProductSame(w, x, y, a, b);
    RepeatedIs(a, b);
    SameLow(w, x * y);
    SameTrans(w, Low(w, x * y), x * y, a * b);
  }

  lemma DivComputes(w: Width, a: word, b: word)
    requires Defined(Div, Promote(w, a), Promote(w, b))
    ensures Apply(Div, w, a, b).Some? && Computes(Div, w, a, b, Apply(Div, w, a, b).value)
    ensures Apply(Rem, w, a, b).Some? && Computes(Rem, w, a, b, Apply(Rem, w, a, b).value)
  {
    hide Same, Promote, Low, Truncates, TruncDiv;
    var x, y := Promote(w, a), Promote(w, b);
    TruncDivTruncates(x, y);
    SameLow(w, TruncDiv(x, y));
    SameLow(w, x - TruncDiv(x, y) * y);
  }

  lemma BitsCompute(op: BinOp, w: Width, a: word, b: word)
    requires op.And? || op.Or? || op.Xor?
    ensures Apply(op, w, a, b).Some? && Computes(op, w, a, b, Apply(op, w, a, b).value)
  {
    hide Bit, BitOp, Low, Promote;
    forall k | 0 <= k < Bits(w)
      ensures var v := Apply(op, w, a, b).value;
        && (op.And? ==> (Bit(v, k) <==> Bit(a, k) && Bit(b, k)))
        && (op.Or? ==> (Bit(v, k) <==> Bit(a, k) || Bit(b, k)))
        && (op.Xor? ==> (Bit(v, k) <==> Bit(a, k) != Bit(b, k)))
    {
      LowBit(w, a, k);
      LowBit(w, b, k);
      BitOpBit(op, Low(w, a), Low(w, b), 32, k);
      LowBit(w, BitOp(op, Low(w, a), Low(w, b), 32), k);
    }
  }

  lemma ShlComputes(w: Width, a: word, b: word)
    requires Defined(Shl, Promote(w, a), Promote(w, b))
    ensures Apply(Shl, w, a, b).Some? && Computes(Shl, w, a, b, Apply(Shl, w, a, b).value)
  {
    hide Same, Promote, Low, Pow2, Doubled;
    var x, y := Promote(w, a), Promote(w, b);
    PromoteSame(w, a);
    SameSelf(w, Pow2(y));
    ProductSame(w, x, Pow2(y), a, Pow2(y));
    DoubledIs(a, y);
    SameLow(w, x * Pow2(y));
    SameTrans(w, Low(w, x * Pow2(y)), x * Pow2(y), Doubled(a, y));
  }

  lemma ShrComputes(w: Width, a: word, b: word)
    requires Defined(Shr, Promote(w, a), Promote(w, b))
    ensures Apply(Shr, w, a, b).Some? && Computes(Shr, w, a, b, Apply(Shr, w, a, b).value)
  {
    hide Same, Promote, Low, Pow2, Doubled;
    var x, y := Promote(w, a), Promote(w, b);
    DoubledIs(1, y);
    var d := Pow2(y);
    assert Floors(x, Doubled(1, y), x / d, x % d);
    SameLow(w, x / d);
  }

  lemma DefinedComputes(op: BinOp, w: Width, a: word, b: word)
    requires Defined(op, Promote(w, a), Promote(w, b))
    ensures Apply(op, w, a, b).Some? && Computes(op, w, a, b, Apply(op, w, a, b).value)
  {
    hide Apply, Computes, Promote;
    match op
    case Add => AddComputes(w, a, b);
    case Sub => SubComputes(w, a, b);
    case Mul => MulComputes(w, a, b);
    case Div => DivComputes(w, a, b);
    case Rem => DivComputes(w, a, b);
    case And => BitsCompute(op, w, a, b);
    case Or => BitsCompute(op, w, a, b);
    case Xor => BitsCompute(op, w, a, b);
    case Shl => ShlComputes(w, a, b);
    case Shr => ShrComputes(w, a, b);
  }

  lemma WordsSame(w: Width, v: word, v': word, x: int)
    requires v < Mod(w) && v' < Mod(w) && Same(w, v, x) && Same(w, v', x)
    ensures v == v'
  {
    SameTrans(w, v', x, x);
    SameTrans(w, v, x, v');
    SameUnique(w, v, v');
  }

  /** The relation leaves only one result of the width. */
  lemma ComputesUnique(op: BinOp, w: Width, a: word, b: word, v: word, v': word)
    requires Computes(op, w, a, b, v) && Computes(op, w, a, b, v') && v < Mod(w) && v' < Mod(w)
    ensures v == v'
  {
    hide Same, Promote, Low, Truncates, Floors, Bit, Doubled, Repeated, Pow2;
    var x, y := Promote(w, a), Promote(w, b);
    if op.And? || op.Or? || op.Xor? {
      ModPow2(w);
      assert forall k :: 0 <= k < Bits(w) ==> Bit(v, k) == Bit(v', k);
      SameBits(v, v', Bits(w));
    } else {
      match op
      case Add => WordsSame(w, v, v', a + b);
      case Sub => DifferencesSame(w, v, v', b, a);
      case Mul => WordsSame(w, v, v', Repeated(a, b));
      case Div =>
        var q, r :| Truncates(x, y, q, r) && Same(w, v, q);
        var q', r' :| Truncates(x, y, q', r') && Same(w, v', q');
        TruncatesUnique(x, y, q, r, q', r');
        WordsSame(w, v, v', q);
      case Rem =>
        var q, r :| Truncates(x, y, q, r) && Same(w, v, r);
        var q', r' :| Truncates(x, y, q', r') && Same(w, v', r');
        TruncatesUnique(x, y, q, r, q', r');
        WordsSame(w, v, v', r);
      case Shl => WordsSame(w, v, v', Doubled(a, y));
      case Shr =>
        var q, r :| Floors(x, Doubled(1, y), q, r) && Same(w, v, q);
        var q', r' :| Floors(x, Doubled(1, y), q', r') && Same(w, v', q');
        FloorsUnique(x, Doubled(1, y), q, r, q', r');
        WordsSame(w, v, v', q);
      case _ =>
    }
  }

  lemma DifferencesSame(w: Width, v: word, v': word, b: int, x: int)
    requires v < Mod(w) && v' < Mod(w) && Same(w, v + b, x) && Same(w, v' + b, x)
    ensures v == v'
  {
    hide Same;
    SameSelf(w, b);
    SumSame(w, v + b, b, x, b);
    SumSame(w, v' + b, b, x, b);
    WordsSame(w, v, v', x - b);
  }

  /** A binary instruction yields v exactly if it is defined on its operands and v is what its
      operator computes, as a word of its width. */
  lemma ApplyExact(op: BinOp, w: Width, a: word, b: word, v: word)
    ensures Apply(op, w, a, b) == Some(v)
      <==> Defined(op, Promote(w, a), Promote(w, b)) && v < Mod(w) && Computes(op, w, a, b, v)
    ensures Apply(op, w, a, b) == None <==> !Defined(op, Promote(w, a), Promote(w, b))
  {
    hide Apply, Computes, Promote;
    if Defined(op, Promote(w, a), Promote(w, b)) {
      DefinedComputes(op, w, a, b);
      var v' := Apply(op, w, a, b).value;
      if Computes(op, w, a, b, v) && v < Mod(w) {
        ComputesUnique(op, w, a, b, v, v');
      }
    } else {
      UndefinedNone(op, w, a, b);
    }
  }

  lemma UndefinedNone(op: BinOp, w: Width, a: word, b: word)
    requires !Defined(op, Promote(w, a), Promote(w, b))
    ensures Apply(op, w, a, b) == None
  {
  }

  // ----- laws -----

  /** The product by zero is zero, and by one more it is a more. */
  lemma MulNext(w: Width, a: word, b: word)
    requires b + 1 < WORD_MOD
    ensures Apply(Mul, w, a, 0) == Some(0)
    ensures var p, q := Apply(Mul, w, a, b), Apply(Mul, w, a, b + 1);
      p.Some? && q.Some? && Same(w, q.value, p.value + a)
  {
    hide Same, Apply, Low;
    MulComputes(w, a, 0);
    MulComputes(w, a, b);
    MulComputes(w, a, b + 1);
    ApplyExact(Mul, w, a, 0, 0);
    var p, q := Apply(Mul, w, a, b).value, Apply(Mul, w, a, b + 1).value;
    SameSelf(w, a);
    SumSame(w, p, a, Repeated(a, b), a);
    SameSelf(w, Repeated(a, b) + a);
    SameTrans(w, q, Repeated(a, b + 1), Repeated(a, b) + a);
    SameTrans(w, p + a, Repeated(a, b) + a, q);
    SameSelf(w, 0);
  }

  lemma AtLeast(n: nat, d: nat)
    requires n > 0 && d > 0
    ensures n * d >= n && (d > 1 ==> n * d > n) && n * d == d * n
  {
    assert n * d == n + n * (d - 1);
  }

  lemma AbsProduct(x: int, y: int)
    ensures Abs(x * y) == Abs(x) * Abs(y)
  {
  }

  lemma ProductBound(x: int, y: int, q: int, r: int)
    requires Truncates(x, y, q, r)
    ensures Abs(q) <= Abs(x) && (Abs(y) > 1 && x != 0 ==> Abs(q) < Abs(x))
  {
    if q != 0 {
      AtLeast(Abs(q), Abs(y));
      AtLeast(Abs(y), Abs(q));
      AbsProduct(q, y);
      SameSigns(x, q * y, r, Abs(y));
    }
  }

  /** A part no smaller than the divisor is no larger than the whole. */
  lemma SameSigns(x: int, p: int, r: int, d: nat)
    requires x == p + r && Abs(r) < d <= Abs(p) && (r == 0 || (r < 0) == (x < 0))
    ensures Abs(p) <= Abs(x)
  {
  }

  /** The quotient of longs is a long unless it is the one that is undefined. */
  lemma QuotientRange(x: int, y: int, q: int, r: int)
    requires Truncates(x, y, q, r) && -0x8000_0000 <= x < 0x8000_0000 && Defined(Div, x, y)
    ensures -0x8000_0000 <= q < 0x8000_0000
  {
    ProductBound(x, y, q, r);
  }

  lemma DenotedNumber(v: word, x: int)
    requires Same(Dword, v, x) && -0x8000_0000 <= x < 0x8000_0000
    ensures Promote(Dword, v) == x
  {
    hide Promote;
    SameSelf(Dword, x);
    SameTrans(Dword, v, x, x);
    PromoteExact(Dword, v, x);
  }

  /** Quotient and remainder of longs put the dividend together again; the remainder is less
      than the divisor and never of the other sign than the dividend. */
  lemma DivRem(a: word, b: word)
    ensures var x, y, q, r := Promote(Dword, a), Promote(Dword, b), Apply(Div, Dword, a, b), Apply(Rem, Dword, a, b);
      && (q.None? <==> r.None?) && (q.None? <==> y == 0 || (x == -0x8000_0000 && y == -1))
      && (q.Some? ==> Truncates(x, y, Promote(Dword, q.value), Promote(Dword, r.value)))
  {
    hide Apply, Promote, Same, Truncates;
    var x, y := Promote(Dword, a), Promote(Dword, b);
    if Defined(Div, x, y) {
      DivComputes(Dword, a, b);
      var v, v' := Apply(Div, Dword, a, b).value, Apply(Rem, Dword, a, b).value;
      var q, r :| Truncates(x, y, q, r) && Same(Dword, v, q);
      var q', r' :| Truncates(x, y, q', r') && Same(Dword, v', r');
      DivRemNumbers(a, b, v, v', q, r, q', r');
    } else {
      UndefinedNone(Div, Dword, a, b);
      UndefinedNone(Rem, Dword, a, b);
    }
  }

  lemma DivRemNumbers(a: word, b: word, v: word, v': word, q: int, r: int, q': int, r': int)
    requires var x, y := Promote(Dword, a), Promote(Dword, b);
      Defined(Div, x, y) && Truncates(x, y, q, r) && Truncates(x, y, q', r') && Same(Dword, v, q) && Same(Dword, v', r')
    ensures Promote(Dword, v) == q == q' && Promote(Dword, v') == r == r'
  {
    hide Same, Promote;
    var x, y := Promote(Dword, a), Promote(Dword, b);
    PromoteExact(Dword, a, x);
    PromoteExact(Dword, b, y);
    TruncatesUnique(x, y, q, r, q', r');
    QuotientRange(x, y, q, r);
    DenotedNumber(v, q);
    DenotedNumber(v', r);
  }

  /** One place more to the left doubles the word. */
  lemma ShlNext(w: Width, a: word, n: word)
    requires n + 1 < 32
    ensures var p, q := Apply(Shl, w, a, n), Apply(Shl, w, a, n + 1);
      Apply(Shl, w, a, 0) == Some(Low(w, a)) && p.Some? && q.Some? && Same(w, q.value, 2 * p.value)
  {
    hide Apply, Same, Doubled, Promote, Low;
    SmallCounts(w, 0);
    SmallCounts(w, n);
    SmallCounts(w, n + 1);
    ShlComputes(w, a, 0);
    ShlComputes(w, a, n);
    ShlComputes(w, a, n + 1);
    DoubledNext(a, n);
    var p: int, q: int := Apply(Shl, w, a, n).value, Apply(Shl, w, a, n + 1).value;
    SumSame(w, p, p, Doubled(a, n), Doubled(a, n));
    SameSelf(w, Doubled(a, n + 1));
    SameTrans(w, q, Doubled(a, n + 1), Doubled(a, n + 1));
    SameTrans(w, p + p, Doubled(a, n + 1), q);
    SameLow(w, a);
    ApplyExact(Shl, w, a, 0, Low(w, a));
  }

  lemma SmallCounts(w: Width, n: word)
    requires n < 0x80
    ensures Promote(w, n) == n
  {
  }

  lemma DoubledNext(x: int, n: nat)
    ensures Doubled(x, 0) == x && Doubled(x, n + 1) == Doubled(x, n) + Doubled(x, n)
  {
  }

  /** A shift to the right divides by a power of two and rounds down. */
  lemma ShrFloors(a: word, n: word)
    requires n < 32
    ensures var v := Apply(Shr, Dword, a, n);
      v.Some? && exists r :: Floors(Promote(Dword, a), Doubled(1, n), Promote(Dword, v.value), r)
  {
    hide Apply, Same, Doubled, Promote, Floors;
    SmallCounts(Dword, n);
    ShrComputes(Dword, a, n);
    var x, v := Promote(Dword, a), Apply(Shr, Dword, a, n).value;
    var q, r :| Floors(x, Doubled(1, n), q, r) && Same(Dword, v, q);
    PromoteExact(Dword, a, x);
    FloorRange(x, Doubled(1, n), q, r);
    DenotedNumber(v, q);
  }

  lemma FloorRange(x: int, d: int, q: int, r: int)
    requires Floors(x, d, q, r) && -0x8000_0000 <= x < 0x8000_0000
    ensures -0x8000_0000 <= q < 0x8000_0000
  {
  }

  /** The complement has exactly the bits that its operand lacks. */
  lemma ComplementBits(w: Width, a: word, k: nat)
    requires k < Bits(w)
    ensures Bit(Complement(w, a), k) != Bit(a, k)
  {
    hide Bit, Low, Pow2;
    ModPow2(w);
    ComplementBit(Low(w, a), Bits(w), k);
    LowBit(w, a, k);
  }

  lemma {:induction false} ComplementBit(v: nat, n: nat, k: nat)
    requires k < n && v < Pow2(n)
    ensures Bit(Pow2(n) - 1 - v, k) != Bit(v, k)
  {
    if k > 0 {
      assert (Pow2(n) - 1 - v) / 2 == Pow2(n - 1) - 1 - v / 2;
      ComplementBit(v / 2, n - 1, k - 1);
    }
  }

  /** A member of a slot is written without touching what lies above it. */
  lemma MergeKeeps(w: Width, slot: word, v: word)
    ensures Merge(w, slot, v) / Mod(w) == slot / Mod(w)
  {
    match w
    case Byte => DivUnique(Merge(w, slot, v), 0x100, slot / 0x100, v % 0x100);
    case Half => DivUnique(Merge(w, slot, v), 0x1_0000, slot / 0x1_0000, v % 0x1_0000);
    case Dword =>
  }
}
