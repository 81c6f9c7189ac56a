/** Sums, differences and products of C23 checked arithmetic: what is stored, and when an overflow is reported. */
module CheckedArithmetic {
  import opened Powers

  const HALF: nat := 0x1_0000_0000
  const WORD: nat := 0x1_0000_0000_0000_0000

  datatype Value = Value(mag: nat, neg: bool, big: bool)

  function Magnitude(x: int): nat
  {
    if x < 0 then 0 - x else x
  }

  /** v stands for x: its sign, the low 64 bits of its magnitude, and whether that has more. */
  predicate Means(v: Value, x: int)
  {
    v.mag == Magnitude(x) % WORD && (v.neg <==> x < 0) && (v.big <==> Magnitude(x) >= WORD)
  }

  // ---- operands ---------------------------------------------------------------------------------------------

  /** An operand: of type unsigned long long, or of any other type, which long long holds. */
  datatype Operand = Wide(u: nat) | Narrow(x: int)
  {
    predicate Valid()
    {
      match this
      case Wide(u) => u < WORD
      case Narrow(x) => -0x8000_0000_0000_0000 <= x < 0x8000_0000_0000_0000
    }

    function Exact(): int
    {
      match this
      case Wide(u) => u
      case Narrow(x) => x
    }
  }

  /** A long long as the unsigned long long of the same bits. */
  function Bits64(x: int): (u: nat)
    ensures u < WORD
  {
    x % WORD
  }

  function FromSigned(x: int): Value
  {
    var neg := x < 0;
    Value(if neg then (WORD - Bits64(x)) % WORD else Bits64(x), neg, false)
  }

  function FromUnsigned(u: nat): Value
  {
    Value(u, false, false)
  }

  function FromOperand(a: Operand): (v: Value)
    requires a.Valid()
    ensures Means(v, a.Exact()) && !v.big
  {
    match a
    case Wide(u) => FromUnsigned(u)
    case Narrow(x) => FromSigned(x)
  }

  // ---- the three operations ---------------------------------------------------------------------------------

  function Add(a: Value, b: Value): Value
  {
    var r :=
      if a.neg == b.neg then
        var mag := (a.mag + b.mag) % WORD;
        Value(mag, a.neg, mag < a.mag)
      else if a.mag >= b.mag then Value(a.mag - b.mag, a.neg, false)
      else Value(b.mag - a.mag, b.neg, false);
    if r.mag == 0 && !r.big then Value(r.mag, false, r.big) else r
  }

  function Sub(a: Value, b: Value): Value
  {
    Add(a, if b.mag != 0 then Value(b.mag, !b.neg, b.big) else b)
  }

  function Mul(a: Value, b: Value): Value
    requires a.mag < WORD && b.mag < WORD
  {
    var al, ah, bl, bh := a.mag % HALF, a.mag / HALF, b.mag % HALF, b.mag / HALF;
    var cross, other, low := ah * bl % WORD, al * bh % WORD, al * bl % WORD;
    var mag := Assembled(cross, other, low);
    var big := (ah != 0 && bh != 0) || Leaves(cross, other, low);
    Value(mag, a.neg != b.neg && (mag != 0 || big), big)
  }

  function Middle(cross: nat, other: nat): nat
  {
    (cross + other) % WORD
  }

  function Assembled(cross: nat, other: nat, low: nat): nat
  {
    (low + Middle(cross, other) * HALF % WORD) % WORD
  }

  predicate Leaves(cross: nat, other: nat, low: nat)
  {
    Middle(cross, other) < cross || Middle(cross, other) / HALF != 0 || Assembled(cross, other, low) < low
  }

  lemma AddIsExact(a: Value, b: Value, x: int, y: int)
    requires Means(a, x) && Means(b, y) && !a.big && !b.big
    ensures Means(Add(a, b), x + y)
  {
    NotBig(a, x);
    NotBig(b, y);
    if a.neg == b.neg {
      Carry(a.mag, b.mag);
    } else {
      Unwrapped(Magnitude(x + y));
    }
  }

  lemma Carry(p: nat, q: nat)
    requires p < WORD && q < WORD
    ensures (p + q) % WORD == (if p + q < WORD then p + q else p + q - WORD) && ((p + q) % WORD < p <==> p + q >= WORD)
  {
  }

  lemma SubIsExact(a: Value, b: Value, x: int, y: int)
    requires Means(a, x) && Means(b, y) && !a.big && !b.big
    ensures Means(Sub(a, b), x - y)
  {
    var c := if b.mag != 0 then Value(b.mag, !b.neg, b.big) else b;
    AddIsExact(a, c, x, 0 - y);
  }

  lemma MulIsExact(a: Value, b: Value, x: int, y: int)
    requires Means(a, x) && Means(b, y) && !a.big && !b.big
    ensures Means(Mul(a, b), x * y)
  {
    hide Mul, Magnitude;
    NotBig(a, x);
    NotBig(b, y);
    MagnitudeOfProduct(x, y);
    ByHalves(a, b);
  }

  lemma NotBig(v: Value, x: int)
    requires Means(v, x) && !v.big
    ensures v.mag == Magnitude(x) < WORD
  {
    Unwrapped(Magnitude(x));
  }

  lemma MagnitudeOfProduct(x: int, y: int)
    ensures Magnitude(x * y) == Magnitude(x) * Magnitude(y)
    ensures x * y < 0 <==> ((x < 0) != (y < 0) && Magnitude(x) * Magnitude(y) != 0)
  {
    if x < 0 && y < 0 {
      assert x * y == (0 - x) * (0 - y);
      MulPositive(0 - x, 0 - y);
    } else if x < 0 && y > 0 {
      assert x * y == 0 - (0 - x) * y;
      MulPositive(0 - x, y);
    } else if x > 0 && y < 0 {
      assert x * y == 0 - x * (0 - y);
      MulPositive(x, 0 - y);
    } else if x > 0 && y > 0 {
      MulPositive(x, y);
    }
  }

  /** The product of the magnitudes, from products of their halves. */
  lemma ByHalves(a: Value, b: Value)
    requires a.mag < WORD && b.mag < WORD
    ensures var p, r := a.mag * b.mag, Mul(a, b);
      r.mag == p % WORD && (r.big <==> p >= WORD) && (r.neg <==> a.neg != b.neg && p != 0)
  {
    hide Assembled, Leaves;
    var al, ah, bl, bh := a.mag % HALF, a.mag / HALF, b.mag % HALF, b.mag / HALF;
    Halves(al, ah, bl, bh);
    SmallProduct(ah, bl);
    SmallProduct(al, bh);
    SmallProduct(al, bl);
    Unwrapped(ah * bl);
    Unwrapped(al * bh);
    Unwrapped(al * bl);
    DivModIdentity(a.mag, HALF);
    DivModIdentity(b.mag, HALF);
    if ah != 0 && bh != 0 {
      MulPositive(ah, bh);
    }
    NoProduct(ah, bl, al, bh);
    Assemble(ah * bh, ah * bl, al * bh, al * bl, ah != 0 && bh != 0);
  }

  lemma NoProduct(ah: nat, bl: nat, al: nat, bh: nat)
    ensures (ah == 0 ==> ah * bl == 0 && ah * bh == 0) && (bh == 0 ==> al * bh == 0 && ah * bh == 0)
  {
  }

  lemma Halves(al: nat, ah: nat, bl: nat, bh: nat)
    ensures (ah * HALF + al) * (bh * HALF + bl) == ah * bh * WORD + (ah * bl + al * bh) * HALF + al * bl
  {
  }

  lemma SmallProduct(x: nat, y: nat)
    requires x < HALF && y < HALF
    ensures x * y <= (HALF - 1) * (HALF - 1)
  {
    MulMonotone2(x, HALF - 1, y, HALF - 1);
  }

  lemma Unwrapped(p: nat)
    requires p < WORD
    ensures p % WORD == p
  {
  }

  /** The three sums, and what each carries out of 64 bits. */
  lemma Sums(cross: nat, other: nat, low: nat) returns (k: nat, upper: nat, carry: nat)
    requires cross < WORD && other < WORD && low < WORD
    ensures (cross + other) * HALF + low == (k * HALF + upper + carry) * WORD + Assembled(cross, other, low)
    ensures Assembled(cross, other, low) < WORD
    ensures Leaves(cross, other, low) <==> k > 0 || upper > 0 || carry > 0
  {
    var mid := Middle(cross, other);
    Carry(cross, other);
    Shifted(mid);
    var moved := mid % HALF * HALF;
    Carry(low, moved);
    k := if cross + other < WORD then 0 else 1;
    upper := mid / HALF;
    carry := if low + moved < WORD then 0 else 1;
  }

  /** Where the four products land, and which of them can leave 64 bits. */
  lemma Assemble(hh: nat, cross: nat, other: nat, low: nat, both: bool)
    requires cross <= (HALF - 1) * (HALF - 1) && other <= (HALF - 1) * (HALF - 1) && low <= (HALF - 1) * (HALF - 1)
    requires both <==> hh > 0
    ensures var p := hh * WORD + (cross + other) * HALF + low;
      Assembled(cross, other, low) == p % WORD && ((both || Leaves(cross, other, low)) <==> p >= WORD)
  {
    hide Assembled, Leaves;
    var k, upper, carry := Sums(cross, other, low);
    DivModUnique(hh * WORD + (cross + other) * HALF + low, hh + k * HALF + upper + carry, WORD,
                 Assembled(cross, other, low));
  }

  /** Moving a middle sum up by 32 bits drops its upper half. */
  lemma Shifted(mid: nat)
    requires mid < WORD
    ensures mid * HALF % WORD == mid % HALF * HALF < WORD && mid * HALF == mid / HALF * WORD + mid % HALF * HALF
  {
    DivModUnique(mid * HALF, mid / HALF, WORD, mid % HALF * HALF);
  }

  // ---- results ----------------------------------------------------------------------------------------------

  datatype IntType = SignedChar | Short | Int | Long | LongLong
    | UnsignedChar | UnsignedShort | UnsignedInt | UnsignedLong | UnsignedLongLong
  {
    predicate Signed()
    {
      SignedChar? || Short? || Int? || Long? || LongLong?
    }

    function Size(): (n: nat)
      ensures n > 0 && n % 2 == 0
    {
      match this
      case SignedChar | UnsignedChar => 0x100
      case Short | UnsignedShort => 0x1_0000
      case LongLong | UnsignedLongLong => WORD
      case _ => HALF
    }

    predicate Holds(x: int)
    {
      if Signed() then 0 - Size() <= 2 * x < Size() else 0 <= x < Size()
    }

    /** The value whose low bits are those of x, as two's complement converts it. */
    function Converted(x: int): int
    {
      var low := x % Size();
      if Signed() && 2 * low >= Size() then low - Size() else low
    }

    function PosMax(): nat
    {
      match this
      case SignedChar => 0x7F
      case Short => 0x7FFF
      case Int | Long => 0x7FFF_FFFF
      case LongLong => 0x7FFF_FFFF_FFFF_FFFF
      case UnsignedChar => 0xFF
      case UnsignedShort => 0xFFFF
      case UnsignedInt | UnsignedLong => 0xFFFF_FFFF
      case UnsignedLongLong => 0xFFFF_FFFF_FFFF_FFFF
    }

    function NegMax(): nat
    {
      match this
      case SignedChar => 0x80
      case Short => 0x8000
      case Int | Long => 0x8000_0000
      case LongLong => 0x8000_0000_0000_0000
      case _ => 0
    }

    /** Converting drops a multiple of the type's size, and nothing from a value the type holds. */
    lemma ConvertedIs(x: int)
      ensures Holds(Converted(x)) && (x - Converted(x)) % Size() == 0 && (Holds(x) ==> Converted(x) == x)
    {
      hide Size;
      var n := Size();
      DivModIdentity(x, n);
      var q := x / n;
      if Signed() && 2 * (x % n) >= n {
        Distribute(q, 1, n);
        DivModUnique(x - Converted(x), q + 1, n, 0);
      } else {
        DivModUnique(x - Converted(x), q, n, 0);
      }
      if Holds(x) {
        DivModUnique(0, 0, n, 0);
        OneValue(x, x);
      }
    }

    /** No other value of the type will do. */
    lemma OneValue(x: int, y: int)
      requires Holds(y) && (x - y) % Size() == 0
      ensures Converted(x) == y
    {
      hide Size;
      var n := Size();
      var k := (x - y) / n;
      DivModIdentity(x - y, n);
      if y >= 0 {
        DivModUnique(x, k, n, y);
      } else {
        Distribute(k, -1, n);
        DivModUnique(x, k - 1, n, y + n);
      }
    }
  }

  /** The 64 bits of the result. */
  function Wrapped(v: Value): nat
  {
    if v.neg then (WORD - v.mag % WORD) % WORD else v.mag
  }

  predicate FitsIn(v: Value, posMax: nat, negMax: nat)
  {
    !v.big && if v.neg then v.mag <= negMax else v.mag <= posMax
  }

  /** What is stored, and whether the exact result did not fit. */
  function Store(t: IntType, v: Value): (int, bool)
  {
    (t.Converted(Wrapped(v)), !FitsIn(v, t.PosMax(), t.NegMax()))
  }

  datatype Operation = Plus | Minus | Times

  function Exact(op: Operation, x: int, y: int): int
  {
    match op
    case Plus => x + y
    case Minus => x - y
    case Times => x * y
  }

  function Checked(op: Operation, t: IntType, a: Operand, b: Operand): (int, bool)
    requires a.Valid() && b.Valid()
  {
    var v, w := FromOperand(a), FromOperand(b);
    Store(t, match op case Plus => Add(v, w) case Minus => Sub(v, w) case Times => Mul(v, w))
  }

  /** For all operands and every type of result: exact wrapped to the type, and overflow just when it does not fit. */
  lemma CheckedIsExact(op: Operation, t: IntType, a: Operand, b: Operand)
    requires a.Valid() && b.Valid()
    ensures var (stored, overflow) := Checked(op, t, a, b);
      var z := Exact(op, a.Exact(), b.Exact());
      t.Holds(stored) && (z - stored) % t.Size() == 0 && (overflow <==> !t.Holds(z)) && (!overflow ==> stored == z)
  {
    hide Means, Add, Sub, Mul, Store, IntType.Holds, IntType.Converted, IntType.Size;
    var x, y := a.Exact(), b.Exact();
    var v, w := FromOperand(a), FromOperand(b);
    EachIsExact(op, v, w, x, y);
    var z := Exact(op, x, y);
    StoreIs(t, match op case Plus => Add(v, w) case Minus => Sub(v, w) case Times => Mul(v, w), z);
    t.ConvertedIs(z);
  }

  lemma EachIsExact(op: Operation, v: Value, w: Value, x: int, y: int)
    requires Means(v, x) && Means(w, y) && !v.big && !w.big
    ensures Means(match op case Plus => Add(v, w) case Minus => Sub(v, w) case Times => Mul(v, w), Exact(op, x, y))
  {
    hide Means, Add, Sub, Mul;
    match op
    case Plus => AddIsExact(v, w, x, y);
    case Minus => SubIsExact(v, w, x, y);
    case Times => MulIsExact(v, w, x, y);
  }

  lemma StoreIs(t: IntType, v: Value, z: int)
    requires Means(v, z)
    ensures Store(t, v) == (t.Converted(z), !t.Holds(z))
  {
    WrappedIs(v, z);
    LowBits(t, Wrapped(v), z);
    FitsIs(t, v, z);
  }

  lemma FitsIs(t: IntType, v: Value, z: int)
    requires Means(v, z)
    ensures FitsIn(v, t.PosMax(), t.NegMax()) <==> t.Holds(z)
  {
    if Magnitude(z) < WORD { Unwrapped(Magnitude(z)); }
  }

  /** The result's 64 bits are the exact result's low 64. */
  lemma WrappedIs(v: Value, z: int)
    requires Means(v, z)
    ensures Wrapped(v) == z % WORD
  {
    var m := Magnitude(z);
    DivModIdentity(m, WORD);
    Unwrapped(m % WORD);
    if z < 0 {
      if m % WORD == 0 {
        DivModUnique(z, 0 - m / WORD, WORD, 0);
      } else {
        DivModUnique(z, 0 - m / WORD - 1, WORD, WORD - m % WORD);
        Unwrapped(WORD - m % WORD);
      }
    }
  }

  /** Every type's size divides 2^64. */
  lemma LowBits(t: IntType, u: nat, z: int)
    requires u == z % WORD
    ensures t.Converted(u) == t.Converted(z)
  {
    hide IntType.Size;
    var n := t.Size();
    var c := Fits(t);
    DivModIdentity(z, WORD);
    SameRemainder(u, z, z / WORD, c, n);
  }

  /** The size of a type divides 2^64. */
  lemma Fits(t: IntType) returns (c: nat)
    ensures c * t.Size() == WORD
  {
    c := WORD / t.Size();
  }

  lemma SameRemainder(u: nat, z: int, k: int, c: nat, n: nat)
    requires n > 0 && z == k * (c * n) + u
    ensures u % n == z % n
  {
    DivModIdentity(u, n);
    var q, r := u / n, u % n;
    MulAssoc(k, c, n);
    Distribute(k * c, q, n);
    DivModUnique(z, k * c + q, n, r);
  }
}
