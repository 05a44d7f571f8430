/** Reading hexadecimal, octal and binary digits into two 32-bit limbs. */
module Numerals {
  import opened Words

  /** What a digit character adds, as the conversion computes it. */
  function DigitOf(c: byte): int {
    if 'a' as int <= c <= 'f' as int then c - 'a' as int + 10
    else if 'A' as int <= c <= 'F' as int then c - 'A' as int + 10
    else c - '0' as int
  }

  datatype Radix = Binary | Octal | Hex

  function Shift(b: Radix): nat {
    match b case Binary => 1 case Octal => 3 case Hex => 4
  }

  function Size(b: Radix): int {
    match b case Binary => 2 case Octal => 8 case Hex => 16
  }

  predicate ValidDigits(digits: seq<byte>, b: Radix) {
    forall i :: 0 <= i < |digits| ==> 0 <= DigitOf(digits[i]) < Size(b)
  }

  /** The positional value of the digits. */
  function Value(digits: seq<byte>, b: Radix): int {
    if digits == [] then 0
    else Size(b) * Value(digits[..|digits| - 1], b) + DigitOf(digits[|digits| - 1])
  }

  /** A limb shifted left. */
  function ShiftUp(v: word, b: Radix): word {
    match b case Binary => v * 2 % WORD_MOD case Octal => v * 8 % WORD_MOD case Hex => v * 16 % WORD_MOD
  }

  /** The bits a limb loses by that. */
  function ShiftOut(v: word, b: Radix): word {
    match b case Binary => v / 0x8000_0000 case Octal => v / 0x2000_0000 case Hex => v / 0x1000_0000
  }

  /** The limb with t or-ed into the bits it gained. */
  function Limb(v: word, t: word, b: Radix): word {
    BitOp(Or, ShiftUp(v, b), t, 32) % WORD_MOD
  }

  /** The limbs after these digits. */
  function Limbs(digits: seq<byte>, b: Radix): (word, word) {
    if digits == [] then (0, 0)
    else
      var (lo, hi) := Limbs(digits[..|digits| - 1], b);
      (Limb(lo, DigitOf(digits[|digits| - 1]) % WORD_MOD, b), Limb(hi, ShiftOut(lo, b), b))
  }

  lemma {:induction false} OrNothing(x: nat, bits: nat)
    requires x < Pow2(bits)
    ensures BitOp(Or, x, 0, bits) == x
  {
    if bits > 0 {
      OrNothing(x / 2, bits - 1);
    }
  }

  /** Or-ing into cleared low bits is adding. */
  lemma {:induction false} OrIsAdd(y: nat, t: nat, s: nat, bits: nat)
    requires t < Pow2(s) && s <= bits && y * Pow2(s) < Pow2(bits)
    ensures BitOp(Or, y * Pow2(s), t, bits) == y * Pow2(s) + t
  {
    if s == 0 {
      OrNothing(y, bits);
    } else {
      var x := y * Pow2(s - 1);
      assert y * Pow2(s) == 2 * x;
      OrIsAdd(y, t / 2, s - 1, bits - 1);
    }
  }

  lemma Powers()
    ensures Pow2(1) == 2 && Pow2(3) == 8 && Pow2(4) == 16 && Pow2(32) == WORD_MOD
  {
    assert Pow2(8) == 256;
    assert Pow2(16) == 65536;
    assert Pow2(24) == 0x100_0000;
  }

  /** The bits a limb keeps. */
  function Kept(v: word, b: Radix): word {
    match b case Binary => v % 0x8000_0000 case Octal => v % 0x2000_0000 case Hex => v % 0x1000_0000
  }

  /** What one limb keeps and what it passes on are together the shifted limb. */
  lemma ShiftSplits(v: word, b: Radix)
    ensures ShiftUp(v, b) == Size(b) * Kept(v, b) <= WORD_MOD - Size(b)
    ensures ShiftUp(v, b) + WORD_MOD * ShiftOut(v, b) == Size(b) * v && ShiftOut(v, b) < Size(b)
  {
    match b
    case Binary => DivUnique(v * 2, WORD_MOD, v / 0x8000_0000, v % 0x8000_0000 * 2);
    case Octal => DivUnique(v * 8, WORD_MOD, v / 0x2000_0000, v % 0x2000_0000 * 8);
    case Hex => DivUnique(v * 16, WORD_MOD, v / 0x1000_0000, v % 0x1000_0000 * 16);
  }

  lemma LimbAdds(v: word, t: word, b: Radix)
    requires t < Size(b)
    ensures Limb(v, t, b) == ShiftUp(v, b) + t
  {
    hide BitOp, Pow2, ShiftUp, ShiftOut, Kept;
    Powers();
    ShiftSplits(v, b);
    assert Pow2(Shift(b)) == Size(b);
    OrIsAdd(Kept(v, b), t, Shift(b), 32);
    assert Kept(v, b) * Pow2(Shift(b)) == ShiftUp(v, b);
  }

  /** The limbs are the positional value modulo 2^64, whatever the number of digits: q is
      what the upper limb has lost. */
  lemma {:induction false} LimbsAreValue(digits: seq<byte>, b: Radix) returns (q: int)
    requires ValidDigits(digits, b)
    ensures var (lo, hi) := Limbs(digits, b); Value(digits, b) == lo + WORD_MOD * (hi + WORD_MOD * q)
  {
    hide Limb, ShiftOut, Size, Value, Limbs, DigitOf;
    NoDigits(b);
    q := 0;
    if digits != [] {
      var front, t := digits[..|digits| - 1], DigitOf(digits[|digits| - 1]);
      q := LimbsAreValue(front, b);
      LastDigit(digits, b);
      q := DigitStep(Limbs(front, b).0, Limbs(front, b).1, q, t, b);
    }
  }

  lemma DigitStep(lo: word, hi: word, q: int, t: word, b: Radix) returns (q': int)
    requires t < Size(b)
    ensures Size(b) * (lo + WORD_MOD * (hi + WORD_MOD * q)) + t
      == Limb(lo, t, b) + WORD_MOD * (Limb(hi, ShiftOut(lo, b), b) + WORD_MOD * q')
  {
    hide Limb, ShiftUp, ShiftOut, Size, Kept;
    ShiftSplits(lo, b);
    ShiftSplits(hi, b);
    LimbAdds(lo, t, b);
    LimbAdds(hi, ShiftOut(lo, b), b);
    Carries(Size(b), lo, hi, q, t, ShiftUp(lo, b), ShiftOut(lo, b), ShiftUp(hi, b), ShiftOut(hi, b));
    q' := Size(b) * q + ShiftOut(hi, b);
  }

  lemma NoDigits(b: Radix)
    ensures Value([], b) == 0 && Limbs([], b) == (0, 0)
  {
  }

  lemma LastDigit(digits: seq<byte>, b: Radix)
    requires digits != [] && ValidDigits(digits, b)
    ensures var front, t := digits[..|digits| - 1], DigitOf(digits[|digits| - 1]);
      && 0 <= t < Size(b) <= 16
      && Value(digits, b) == Size(b) * Value(front, b) + t
      && Limbs(digits, b).0 == Limb(Limbs(front, b).0, t, b)
      && Limbs(digits, b).1 == Limb(Limbs(front, b).1, ShiftOut(Limbs(front, b).0, b), b)
  {
    hide Limb, ShiftOut, Size, Value, Limbs;
    SizeBound(b);
    ValueNext(digits, b);
    LimbsNext(digits, b);
  }

  lemma SizeBound(b: Radix)
    ensures 0 < Size(b) <= 16
  {
  }

  lemma ValueNext(digits: seq<byte>, b: Radix)
    requires digits != []
    ensures Value(digits, b) == Size(b) * Value(digits[..|digits| - 1], b) + DigitOf(digits[|digits| - 1])
  {
    hide Size, DigitOf;
  }

  lemma LimbsNext(digits: seq<byte>, b: Radix)
    requires digits != []
    ensures var (lo, hi) := Limbs(digits[..|digits| - 1], b);
      Limbs(digits, b) == (Limb(lo, DigitOf(digits[|digits| - 1]) % WORD_MOD, b), Limb(hi, ShiftOut(lo, b), b))
  {
    hide Limb, ShiftOut, DigitOf;
  }

  lemma Carries(n: int, lo: int, hi: int, q: int, t: int, upLo: int, outLo: int, upHi: int, outHi: int)
    requires upLo + WORD_MOD * outLo == n * lo && upHi + WORD_MOD * outHi == n * hi
    ensures n * (lo + WORD_MOD * (hi + WORD_MOD * q)) + t ==
      (upLo + t) + WORD_MOD * ((upHi + outLo) + WORD_MOD * (n * q + outHi))
  {
    assert n * (lo + WORD_MOD * (hi + WORD_MOD * q)) == n * lo + WORD_MOD * (n * hi) + WORD_MOD * WORD_MOD * (n * q);
  }

  /** The result is the positional value modulo 2^32. */
  lemma LowLimbIsValue(digits: seq<byte>, b: Radix)
    requires ValidDigits(digits, b)
    ensures Limbs(digits, b).0 == Value(digits, b) % WORD_MOD
  {
    hide Value, Limbs;
    var q := LimbsAreValue(digits, b);
    var (lo, hi) := Limbs(digits, b);
    DivUnique(Value(digits, b), WORD_MOD, hi + WORD_MOD * q, lo);
  }

  /** The conversion loop: for each digit, shift both limbs and carry from low to high. */
  method SpecNumber(digits: seq<byte>, b: Radix) returns (r: word)
    ensures r == Limbs(digits, b).0
    ensures ValidDigits(digits, b) ==> r == Value(digits, b) % WORD_MOD
  {
    var bn := new word[2](_ => 0);
    var i := 0;
    while i < |digits|
      invariant 0 <= i <= |digits| && (bn[0], bn[1]) == Limbs(digits[..i], b)
    {
      hide Limb, ShiftOut;
      var t := DigitOf(digits[i]) % WORD_MOD;
      assert digits[..i + 1][..i] == digits[..i];
      var j := 0;
      ghost var lo, hi := bn[0], bn[1];
      while j < 2
        invariant 0 <= j <= 2
        invariant bn[0] == if j > 0 then Limb(lo, DigitOf(digits[i]) % WORD_MOD, b) else lo
        invariant bn[1] == if j > 1 then Limb(hi, ShiftOut(lo, b), b) else hi
        invariant j == 0 ==> t == DigitOf(digits[i]) % WORD_MOD
        invariant j == 1 ==> t == ShiftOut(lo, b)
      {
        var v := bn[j];
        bn[j] := Limb(v, t, b);
        t := ShiftOut(v, b);
        j := j + 1;
      }
      i := i + 1;
    }
    assert digits[..i] == digits;
    r := bn[0];
    if ValidDigits(digits, b) {
      LowLimbIsValue(digits, b);
    }
  }

  // ----- writing numbers -----

  const DIGITS := "0123456789abcdef"
  const CAPITALS := "0123456789ABCDEF"

  lemma Shrinks(v: nat, base: nat)
    requires 2 <= base <= v
    ensures 0 < v / base < v
  {
    var q, r := v / base, v % base;
    assert v == base * q + r && 0 <= r < base;
    TwiceAtMost(base, q);
  }

  lemma TwiceAtMost(base: nat, q: int)
    requires base >= 2
    ensures q >= 0 ==> base * q >= 2 * q
    ensures q <= 0 ==> base * q <= 0
  {
    assert base * q == 2 * q + (base - 2) * q;
  }

  /** The digits of v in a base, by division. */
  function Numeral(v: nat, base: nat): (r: seq<byte>)
    requires 2 <= base <= 16
    ensures r != []
  {
    if v < base then [DIGITS[v] as int]
    else
      Shrinks(v, base);
      Numeral(v / base, base) + [DIGITS[v % base] as int]
  }

  /** The sixteen digits in order, small or capital. */
  lemma DigitWorth(i: nat)
    requires i < 16
    ensures DigitOf(DIGITS[i] as int) == i && DigitOf(CAPITALS[i] as int) == i
  {
  }

  lemma {:induction false} NumeralValue(v: nat, b: Radix, base: nat)
    requires base == (match b case Binary => 2 case Octal => 8 case Hex => 16)
    ensures Value(Numeral(v, base), b) == v
  {
    hide DigitOf;
    var d := Numeral(v, base);
    if v < base {
      DigitWorth(v);
      assert d[..0] == [];
      assert Value(d[..0], b) == 0;
    } else {
      DigitWorth(v % base);
      NumeralValue(v / base, b, base);
      assert d[..|d| - 1] == Numeral(v / base, base);
    }
  }

  lemma NumeralParts(v: nat, base: nat)
    requires 2 <= base <= 16
    ensures 0 <= v % base < base
    ensures v < base ==> Numeral(v, base) == [DIGITS[v] as int]
    ensures v >= base ==> Numeral(v, base) == Numeral(v / base, base) + [DIGITS[v % base] as int]
  {
  }

  /** A digit of a base is one of its first. */
  lemma {:induction false} NumeralDigits(v: nat, base: nat, i: nat)
    requires 2 <= base <= 16 && i < |Numeral(v, base)|
    ensures exists k :: 0 <= k < base && Numeral(v, base)[i] == DIGITS[k] as int
  {
    NumeralParts(v, base);
    if v >= base {
      Shrinks(v, base);
      if i < |Numeral(v / base, base)| {
        NumeralDigits(v / base, base, i);
      }
    }
  }

  /** Only zero is written with a leading zero. */
  lemma {:induction false} NumeralStarts(v: nat, base: nat)
    requires 2 <= base <= 16 && v > 0
    ensures Numeral(v, base)[0] != '0' as int
  {
    NumeralParts(v, base);
    if v >= base {
      Shrinks(v, base);
      NumeralStarts(v / base, base);
    } else {
      assert forall k :: 0 < k < 16 ==> DIGITS[k] != '0';
    }
  }
}
