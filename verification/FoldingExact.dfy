/**
 * Constant folding agrees with mathematical arithmetic on exact operands.
 *
 * Mean gives the real number that an int64Val, an intVal or a ratVal stands for.  Every
 * operation on such operands, in whatever two representations, is shown to give the number
 * that real arithmetic gives, or a floatVal.
 *
 * For integers more is shown: the result is the one of unbounded integer arithmetic, and it is
 * an int64Val exactly when it fits.  The 63-bit and 32-bit guards make the fast paths agree
 * with the slow ones.  One division has no guard, and wraps.
 *
 * Complex operations are taken apart into operations on the parts.  A part that becomes a
 * floatVal stays one, so a part of the result that is none was computed from exact parts all
 * the way, and is exact.
 *
 * The bitwise operations are defined on integers of any length, bit by bit from the lowest, and
 * shown to act on every bit alone; the complement in a sized type comes out as a remainder.
 *
 * The arithmetic of fractions is in small lemmas about reals, kept apart from the case
 * analysis over representations; fractions are shown to come out in lowest terms.
 */
module FoldingExact {
  import opened Constant

  /** The representations that hold a number exactly. */
  predicate Exact(x: Value) {
    match x
    case Int64(n) => IsInt64(n)
    case Big(_) => true
    case Rat(_, d) => d > 0
    case _ => false
  }

  predicate IsInt(x: Value) {
    x.Int64? || x.Big?
  }

  /** The number an exact value denotes. */
  ghost function Mean(x: Value): real
    requires Exact(x)
  {
    match x
    case Int64(n) => n as real
    case Big(n) => n as real
    case Rat(p, q) => p as real / q as real
  }

  /** An Int is an int64Val exactly when it fits. */
  predicate Normal(x: Value) {
    (x.Int64? ==> IsInt64(x.n)) && (x.Big? ==> !IsInt64(x.n))
  }

  // ----- fractions as reals -------------------------------------------

  lemma Quotient(p: real, q: real, z: real)
    requires q != 0.0 && p == z * q
    ensures p / q == z
  {
  }

  lemma Whole(p: real, q: real)
    requires q != 0.0
    ensures p / q * q == p
  {
  }

  lemma AddFractions(a: real, b: real, c: real, d: real)
    requires b != 0.0 && d != 0.0 && b * d != 0.0
    ensures (a * d + c * b) / (b * d) == a / b + c / d
    ensures (a * d - c * b) / (b * d) == a / b - c / d
  {
    var x, y := a / b, c / d;
    Whole(a, b);
    Whole(c, d);
    assert a * d == x * (b * d);
    assert c * b == y * (b * d);
    Quotient(a * d + c * b, b * d, x + y);
    Quotient(a * d - c * b, b * d, x - y);
  }

  lemma MulFractions(a: real, b: real, c: real, d: real)
    requires b != 0.0 && d != 0.0 && b * d != 0.0
    ensures (a * c) / (b * d) == (a / b) * (c / d)
  {
    var x, y := a / b, c / d;
    Whole(a, b);
    Whole(c, d);
    Shuffle(x, b, y, d);
    Quotient(a * c, b * d, x * y);
  }

  lemma Shuffle(x: real, b: real, y: real, d: real)
    ensures (x * b) * (y * d) == (x * y) * (b * d)
  {
  }

  lemma DivFractions(a: real, b: real, c: real, d: real)
    requires b != 0.0 && d != 0.0 && c != 0.0 && b * c != 0.0
    ensures c / d != 0.0 && (a * d) / (b * c) == (a / b) / (c / d)
  {
    var x, y := a / b, c / d;
    Whole(a, b);
    Whole(c, d);
    assert y != 0.0;
    var z := x / y;
    Whole(x, y);
    Regroup(z, y, b, d);
    Quotient(a * d, b * c, z);
  }

  lemma Regroup(z: real, y: real, b: real, d: real)
    ensures ((z * y) * b) * d == z * (b * (y * d))
  {
  }

  lemma Scale(g: real, p: real, q: real)
    requires g != 0.0 && q != 0.0 && g * q != 0.0
    ensures (g * p) / (g * q) == p / q
  {
    Whole(p, q);
    var z := p / q;
    assert g * p == z * (g * q);
    Quotient(g * p, g * q, z);
  }

  lemma CommonFactor(g: int, k: int, l: int)
    requires g > 0 && l > 0 && g * l > 0
    ensures (g * k) as real / (g * l) as real == k as real / l as real
  {
    RealProduct(g, k);
    RealProduct(g, l);
    Scale(g as real, k as real, l as real);
  }

  /** Reducing a fraction keeps its value. */
  lemma ReduceMeans(p: int, q: int)
    requires q != 0
    ensures Exact(Reduce(p, q)) && Mean(Reduce(p, q)) == p as real / q as real
  {
    ReducedDen(p, q);
    var p', q' := if q < 0 then -p else p, Abs(q);
    var g := Gcd(Abs(p), q');
    GcdDivides(Abs(p), q');
    DividesNeg(g, p);
    assert Divides(g, p') && Divides(g, q');
    CommonFactor(g, p' / g, q' / g);
    if q < 0 { Flip(p as real, q as real); }
  }

  lemma Flip(p: real, q: real)
    requires q != 0.0
    ensures (0.0 - p) / (0.0 - q) == p / q
  {
    Whole(p, q);
    Quotient(0.0 - p, 0.0 - q, p / q);
  }

  lemma RealProduct(a: int, b: int)
    ensures (a * b) as real == a as real * b as real
  {
  }

  lemma DividesNeg(g: nat, p: int)
    requires Divides(g, Abs(p))
    ensures Divides(g, p) && Divides(g, -p)
  {
    var k := Abs(p) / g;
    Multiple(g, k, Abs(p));
    NegProduct(g, k);
    Multiple(g, 0 - k, 0 - Abs(p));
  }

  lemma NegProduct(g: int, k: int)
    ensures g * (-k) == -(g * k)
  {
  }

  // ----- integers -----------------------------------------------------

  predicate IntegerOp(op: Token) {
    op in {ADD, SUB, MUL, QUO_ASSIGN, REM, AND, OR, XOR, AND_NOT}
  }

  predicate DivisionOp(op: Token) {
    op == QUO_ASSIGN || op == REM
  }

  /** Unbounded integer arithmetic. */
  function Integer(op: Token, a: int, b: int): int
    requires IntegerOp(op) && (DivisionOp(op) ==> b != 0)
  {
    match op
    case ADD => a + b
    case SUB => a - b
    case MUL => a * b
    case QUO_ASSIGN => Quo(a, b)
    case REM => Rem(a, b)
    case _ => Bits(Truth(op), a, b)
  }

  /** The one case that wraps: both operands int64Vals, MinInt64 divided by -1. */
  predicate Wraps(x: Value, op: Token, y: Value) {
    op == QUO_ASSIGN && x == Int64(MIN) && y == Int64(-1)
  }

  /** Quo and Rem are truncated division. */
  lemma QuoRem(a: int, b: int)
    requires b != 0
    ensures a == Quo(a, b) * b + Rem(a, b)
    ensures Abs(Rem(a, b)) < Abs(b) && (a >= 0 ==> Rem(a, b) >= 0) && (a <= 0 ==> Rem(a, b) <= 0)
  {
    if a < 0 { NegProduct(b, (-a) / b); }
  }

  lemma ProductBound(a: int, b: int, k: int)
    requires Abs(a) <= k && Abs(b) <= k
    ensures Abs(a * b) <= k * k
  {
    AbsProduct(a, b);
    UpTo(Abs(a), Abs(b), k);
  }

  lemma UpTo(a: int, b: int, k: int)
    requires 0 <= a <= k && 0 <= b <= k
    ensures a * b <= k * k
  {
    assert a * b <= k * b;
    assert k * b <= k * k;
  }

  lemma {:induction false} BitsInRange(f: (bool, bool) -> bool, a: int, b: int, k: nat)
    requires 0 - Pow2(k) <= a < Pow2(k) && 0 - Pow2(k) <= b < Pow2(k)
    ensures 0 - Pow2(k) <= Bits(f, a, b) < Pow2(k)
    decreases k
  {
    if k > 0 { BitsInRange(f, a / 2, b / 2, k - 1); }
  }

  lemma Pow2Step(k: nat)
    ensures Pow2(k + 4) == 16 * Pow2(k)
  {
    assert Pow2(k + 2) == 2 * Pow2(k + 1) == 4 * Pow2(k);
    assert Pow2(k + 3) == 2 * Pow2(k + 2);
  }

  lemma Pow63()
    ensures Pow2(63) == 0x8000_0000_0000_0000
  {
    assert Pow2(3) == 8;
    Pow2Step(3); Pow2Step(7); Pow2Step(11); Pow2Step(15); Pow2Step(19);
    Pow2Step(23); Pow2Step(27); Pow2Step(31); Pow2Step(35); Pow2Step(39);
    Pow2Step(43); Pow2Step(47); Pow2Step(51); Pow2Step(55); Pow2Step(59);
  }

  lemma QuoInRange(a: int, b: int)
    requires IsInt64(a) && IsInt64(b) && b != 0
    ensures IsInt64(Quo(a, b)) <==> !(a == MIN && b == -1)
    ensures IsInt64(Rem(a, b))
  {
    QuoRem(a, b);
    QuoBound(Quo(a, b), b, Rem(a, b), a);
  }

  lemma QuoBound(q: int, b: int, r: int, a: int)
    requires a == q * b + r && b != 0 && Abs(r) < Abs(b) && (a >= 0 ==> r >= 0) && (a <= 0 ==> r <= 0)
    ensures Abs(q) <= Abs(a) && (b == -1 ==> q == -a) && (a != 0 && b != 1 && b != -1 ==> Abs(q) < Abs(a))
    ensures b == 1 ==> q == a
  {
    AbsProduct(q, b);
    assert Abs(a) == Abs(q * b) + Abs(r) by { SameSign(q, b, r, a); }
    Grow(Abs(q), Abs(b));
  }

  lemma AbsProduct(q: int, b: int)
    ensures Abs(q * b) == Abs(q) * Abs(b)
  {
    if q >= 0 && b >= 0 {} else if q >= 0 {} else if b >= 0 {} else {}
  }

  lemma SameSign(q: int, b: int, r: int, a: int)
    requires a == q * b + r && Abs(r) < Abs(b) && (a >= 0 ==> r >= 0) && (a <= 0 ==> r <= 0)
    ensures Abs(a) == Abs(q * b) + Abs(r)
  {
    AbsProduct(q, b);
    Grow(Abs(q), Abs(b));
  }

  lemma Grow(q: nat, b: nat)
    ensures b >= 1 ==> q * b >= q
    ensures b >= 2 && q > 0 ==> q * b > q
    ensures q >= 1 ==> q * b >= b
  {
  }

  /** The int64 fast paths agree with unbounded arithmetic, except for the one division that wraps. */
  lemma Int64Folds(a: int, op: Token, b: int)
    requires IsInt64(a) && IsInt64(b) && IntegerOp(op)
    ensures DivisionOp(op) && b == 0 ==> Int64Op(a, op, b) == Panic
    ensures !(DivisionOp(op) && b == 0) ==>
              (Int64Op(a, op, b) == Ok(MakeInt(Integer(op, a, b))) <==> !Wraps(Int64(a), op, Int64(b)))
  {
    if op == MUL {
      if Is32bit(a) && Is32bit(b) { ProductBound(a, b, 0x8000_0000); }
    } else if DivisionOp(op) {
      if b != 0 { QuoInRange(a, b); }
    } else if op != ADD && op != SUB {
      Pow63();
      BitsInRange(Truth(op), a, b, 63);
    }
  }

  /**
   Integer operations on Ints of either representation are unbounded integer arithmetic, the
   result is an int64Val exactly when it fits, and only MinInt64 / -1 on int64Vals goes wrong.
   */
  lemma IntegersFold(x: Value, op: Token, y: Value)
    requires IsInt(x) && IsInt(y) && Exact(x) && Exact(y) && IntegerOp(op)
    ensures DivisionOp(op) && y.n == 0 ==> BinaryOp(x, op, y) == Panic
    ensures !(DivisionOp(op) && y.n == 0) ==>
              (BinaryOp(x, op, y) == Ok(MakeInt(Integer(op, x.n, y.n))) <==> !Wraps(x, op, y))
  {
    if x.Int64? && y.Int64? {
      Int64Folds(x.n, op, y.n);
    }
  }

  /** The wrapping case, concretely: the quotient 2^63 comes out as MinInt64. */
  lemma DivisionThatWraps()
    ensures BinaryOp(Int64(MIN), QUO_ASSIGN, Int64(-1)) == Ok(Int64(MIN))
    ensures Quo(MIN, -1) == MAX + 1
  {
  }

  lemma MakeIntMeans(n: int)
    ensures Exact(MakeInt(n)) && Normal(MakeInt(n)) && IsInt(MakeInt(n)) && Mean(MakeInt(n)) == n as real
  {
  }

  // ----- reals --------------------------------------------------------

  predicate FieldOp(op: Token) {
    op == ADD || op == SUB || op == MUL || op == QUO
  }

  ghost function Field(op: Token, x: real, y: real): real
    requires FieldOp(op) && (op == QUO ==> y != 0.0)
  {
    match op
    case ADD => x + y
    case SUB => x - y
    case MUL => x * y
    case QUO => x / y
  }

  /** An outcome that is no floatVal denotes the exact result; division by zero panics, nothing else does. */
  ghost predicate Folded(r: Outcome<Value>, op: Token, x: real, y: real)
    requires FieldOp(op)
  {
    if op == QUO && y == 0.0 then r == Panic
    else r.Ok? && (r.value.Float? || (Exact(r.value) && Mean(r.value) == Field(op, x, y)))
  }

  lemma ReducedFolds(p: int, q: int, op: Token, x: real, y: real)
    requires FieldOp(op) && q != 0 && (op == QUO ==> y != 0.0) && p as real / q as real == Field(op, x, y)
    ensures Folded(Ok(MakeRat(Reduce(p, q))), op, x, y)
  {
    ReduceMeans(p, q);
  }

  lemma SumOf(a: int, b: int, c: int, d: int)
    requires b > 0 && d > 0 && b * d > 0
    ensures (a * d + c * b) as real / (b * d) as real == a as real / b as real + c as real / d as real
    ensures (a * d - c * b) as real / (b * d) as real == a as real / b as real - c as real / d as real
  {
    RealProduct(a, d); RealProduct(c, b); RealProduct(b, d);
    AddFractions(a as real, b as real, c as real, d as real);
  }

  lemma ProductOf(a: int, b: int, c: int, d: int)
    requires b > 0 && d > 0 && b * d > 0
    ensures (a * c) as real / (b * d) as real == (a as real / b as real) * (c as real / d as real)
  {
    RealProduct(a, c); RealProduct(b, d);
    MulFractions(a as real, b as real, c as real, d as real);
  }

  lemma QuotientOf(a: int, b: int, c: int, d: int)
    requires b > 0 && d > 0 && c != 0 && b * c != 0
    ensures c as real / d as real != 0.0
    ensures (a * d) as real / (b * c) as real == (a as real / b as real) / (c as real / d as real)
  {
    RealProduct(a, d); RealProduct(b, c);
    DivFractions(a as real, b as real, c as real, d as real);
  }

  lemma RatAddFolds(a: int, b: int, op: Token, c: int, d: int, x: real, y: real)
    requires b > 0 && d > 0 && (op == ADD || op == SUB) && x == a as real / b as real && y == c as real / d as real
    ensures Folded(RatOp(a, b, op, c, d), op, x, y)
  {
    Positive(b, d);
    SumOf(a, b, c, d);
    var p := if op == ADD then a * d + c * b else a * d - c * b;
    ReducedFolds(p, b * d, op, x, y);
  }

  lemma RatMulFolds(a: int, b: int, c: int, d: int, x: real, y: real)
    requires b > 0 && d > 0 && x == a as real / b as real && y == c as real / d as real
    ensures Folded(RatOp(a, b, MUL, c, d), MUL, x, y)
  {
    Positive(b, d);
    ProductOf(a, b, c, d);
    ReducedFolds(a * c, b * d, MUL, x, y);
  }

  lemma RatQuoFolds(a: int, b: int, c: int, d: int, x: real, y: real)
    requires b > 0 && d > 0 && x == a as real / b as real && y == c as real / d as real
    ensures Folded(RatOp(a, b, QUO, c, d), QUO, x, y)
  {
    if c != 0 {
      NonZero(b, c);
      QuotientOf(a, b, c, d);
      ReducedFolds(a * d, b * c, QUO, x, y);
    } else {
      Quotient(c as real, d as real, 0.0);
    }
  }

  lemma RatFolds(a: int, b: int, op: Token, c: int, d: int)
    requires b > 0 && d > 0 && FieldOp(op)
    ensures Folded(RatOp(a, b, op, c, d), op, a as real / b as real, c as real / d as real)
  {
    var x, y := a as real / b as real, c as real / d as real;
    if op == MUL {
      RatMulFolds(a, b, c, d, x, y);
    } else if op == QUO {
      RatQuoFolds(a, b, c, d, x, y);
    } else {
      RatAddFolds(a, b, op, c, d, x, y);
    }
  }

  lemma IntFieldFolds(m: int, op: Token, n: int)
    requires FieldOp(op)
    ensures IsInt64(m) && IsInt64(n) ==> Folded(Int64Op(m, op, n), op, m as real, n as real)
    ensures Folded(BigOp(m, op, n), op, m as real, n as real)
  {
    RealProduct(m, n);
    if op == QUO {
      if n != 0 { ReduceMeans(m, n); }
    } else {
      if IsInt64(m) && IsInt64(n) { Int64Folds(m, op, n); }
      MakeIntMeans(Integer(op, m, n));
    }
  }

  /** Bringing operands to one representation keeps what they denote. */
  lemma MatchKeepsMeaning(x: Value, y: Value)
    requires Exact(x) && Exact(y)
    ensures var (a, b) := Match(x, y);
            Exact(a) && Exact(b) && Ord(a) == Ord(b) && Mean(a) == Mean(x) && Mean(b) == Mean(y)
            && ((a.Int64? || a.Big?) ==> IsInt(x) && IsInt(y) && a.n == x.n && b.n == y.n)
  {
  }

  /** The field operations on exact operands of any two representations. */
  lemma FieldFolds(x: Value, op: Token, y: Value)
    requires Exact(x) && Exact(y) && FieldOp(op)
    ensures Folded(BinaryOp(x, op, y), op, Mean(x), Mean(y))
  {
    MatchKeepsMeaning(x, y);
    var (a, b) := Match(x, y);
    if a.Rat? {
      RatFolds(a.num, a.den, op, b.num, b.den);
    } else {
      IntFieldFolds(a.n, op, b.n);
    }
  }

  // ----- bits ---------------------------------------------------------

  /** Bit `i` of the two's-complement form, of whatever length. */
  predicate BitAt(a: int, i: nat)
    decreases i
  {
    if i == 0 then Odd(a) else BitAt(a / 2, i - 1)
  }

  lemma {:induction false} SameBits(a: int, i: nat)
    requires a == 0 || a == -1
    ensures BitAt(a, i) == (a == -1)
  {
    if i > 0 { SameBits(a, i - 1); }
  }

  lemma BitsStep(f: (bool, bool) -> bool, a: int, b: int)
    requires Spread(a) + Spread(b) != 0
    ensures Bits(f, a, b) / 2 == Bits(f, a / 2, b / 2) && Odd(Bits(f, a, b)) == f(Odd(a), Odd(b))
  {
  }

  /** The bitwise operations work on every bit alone. */
  lemma {:induction false} BitsAreBitwise(f: (bool, bool) -> bool, a: int, b: int, i: nat)
    ensures BitAt(Bits(f, a, b), i) == f(BitAt(a, i), BitAt(b, i))
    decreases i
  {
    if Spread(a) + Spread(b) == 0 {
      SameBits(a, i);
      SameBits(b, i);
      SameBits(Bits(f, a, b), i);
    } else {
      BitsStep(f, a, b);
      if i > 0 { BitsAreBitwise(f, a / 2, b / 2, i - 1); }
    }
  }

  lemma {:induction false} ClearAll(z: int)
    ensures Bits(Truth(AND_NOT), z, -1) == 0
    decreases Spread(z)
  {
    if Spread(z) > 0 { ClearAll(z / 2); }
  }

  lemma ModTwice(z: int, m: nat)
    requires m > 0
    ensures z % (2 * m) == 2 * ((z / 2) % m) + z % 2
  {
    var h, b := z / 2, z % 2;
    var q, r := h / m, h % m;
    assert h == q * m + r;
    ModUnique(z, 2 * m, q, 2 * r + b);
  }

  lemma ModUnique(z: int, m: nat, q: int, r: int)
    requires m > 0 && z == q * m + r && 0 <= r < m
    ensures z % m == r
  {
    var q', r' := z / m, z % m;
    assert z == q' * m + r';
    var d := q - q';
    assert d * m == r' - r;
    assert d >= 1 ==> d * m >= m;
    assert d <= -1 ==> d * m <= 0 - m;
  }

  /** Clearing every bit from `k` on is taking the remainder modulo 2^k. */
  lemma {:induction false} LowBits(z: int, k: nat)
    ensures Bits(Truth(AND_NOT), z, 0 - Pow2(k)) == z % Pow2(k)
    decreases k
  {
    if k == 0 {
      ClearAll(z);
    } else {
      LowBits(z / 2, k - 1);
      ModTwice(z, Pow2(k - 1));
    }
  }

  // ----- unary operations ---------------------------------------------

  /** Negation is exact, also of MinInt64. */
  lemma NegationFolds(y: Value)
    requires Exact(y)
    ensures UnaryOp(SUB, y, 0).Ok?
    ensures var r := UnaryOp(SUB, y, 0).value; r.Float? || (Exact(r) && Mean(r) == 0.0 - Mean(y))
    ensures IsInt(y) ==> UnaryOp(SUB, y, 0) == Ok(MakeInt(-y.n))
  {
    if y.Rat? {
      Whole(y.num as real, y.den as real);
      Quotient(0.0 - y.num as real, y.den as real, 0.0 - y.num as real / y.den as real);
    }
  }

  /** Complement is -1-n, taken modulo 2^prec for an unsigned type. */
  lemma ComplementFolds(y: Value, prec: nat)
    requires IsInt(y)
    ensures UnaryOp(XOR, y, prec) == Ok(MakeInt(if prec == 0 then -1 - y.n else (-1 - y.n) % Pow2(prec)))
    ensures prec > 0 && 0 <= y.n < Pow2(prec) ==> UnaryOp(XOR, y, prec) == Ok(MakeInt(Pow2(prec) - 1 - y.n))
  {
    if prec > 0 {
      LowBits(-1 - y.n, prec);
      if 0 <= y.n < Pow2(prec) { ModUnique(-1 - y.n, Pow2(prec), -1, Pow2(prec) - 1 - y.n); }
    }
  }

  // ----- comparison ---------------------------------------------------

  predicate Relation(op: Token) {
    op in {EQL, NEQ, LSS, LEQ, GTR, GEQ}
  }

  ghost predicate Related(op: Token, x: real, y: real)
    requires Relation(op)
  {
    match op
    case EQL => x == y
    case NEQ => x != y
    case LSS => x < y
    case LEQ => x <= y
    case GTR => x > y
    case GEQ => x >= y
  }

  lemma FractionOrder(a: real, b: real, c: real, d: real)
    requires b > 0.0 && d > 0.0
    ensures a / b < c / d <==> a * d < c * b
    ensures a / b == c / d <==> a * d == c * b
  {
    var x, y := a / b, c / d;
    Whole(a, b);
    Whole(c, d);
    ScaleOrder(x, y, b, d);
    Rearrange(x, b, d);
    Rearrange(y, d, b);
  }

  lemma Rearrange(x: real, b: real, d: real)
    ensures (x * b) * d == x * (b * d) && x * (b * d) == x * (d * b)
  {
  }

  lemma ScaleOrder(x: real, y: real, b: real, d: real)
    requires b > 0.0 && d > 0.0
    ensures x < y <==> x * (b * d) < y * (b * d)
    ensures x == y <==> x * (b * d) == y * (b * d)
  {
    var s := b * d;
    assert s > 0.0;
    Monotone(x, y, s);
    Monotone(y, x, s);
  }

  lemma Monotone(x: real, y: real, s: real)
    requires s > 0.0
    ensures x < y ==> x * s < y * s
  {
  }

  lemma RatOrder(m: int, n: int, p: int, q: int)
    requires n > 0 && q > 0
    ensures m * q - p * n < 0 <==> m as real / n as real < p as real / q as real
    ensures m * q - p * n == 0 <==> m as real / n as real == p as real / q as real
  {
    RealProduct(m, q);
    RealProduct(p, n);
    FractionOrder(m as real, n as real, p as real, q as real);
  }

  /** Comparison is the order of the numbers denoted. */
  lemma ComparisonFolds(x: Value, op: Token, y: Value)
    requires Exact(x) && Exact(y)
    ensures Relation(op) ==> Compare(x, op, y) == Ok(Related(op, Mean(x), Mean(y)))
    ensures !Relation(op) ==> Compare(x, op, y) == Panic
  {
    MatchKeepsMeaning(x, y);
    var (a, b) := Match(x, y);
    if a.Rat? {
      RatOrder(a.num, a.den, b.num, b.den);
    }
  }

  // ----- complex numbers ----------------------------------------------

  /** A value that is not complex and stands for a number. */
  predicate Number(x: Value) {
    Exact(x) || x.Float?
  }

  /** One step inside a complex operation: a result that is no floatVal comes from exact operands, exactly. */
  ghost predicate Step(r: Outcome<Value>, x: Value, op: Token, y: Value) {
    FieldOp(op) &&
    (if r.Panic? then op == QUO && Exact(x) && Exact(y) && Mean(y) == 0.0
     else Number(r.value) && (Exact(r.value) ==>
            Exact(x) && Exact(y) && (op == QUO ==> Mean(y) != 0.0) && Mean(r.value) == Field(op, Mean(x), Mean(y))))
  }

  ghost predicate Steps(f: (Value, Token, Value) -> Outcome<Value>) {
    forall x, op, y {:trigger f(x, op, y)} :: Number(x) && Number(y) && FieldOp(op) ==> Step(f(x, op, y), x, op, y)
  }

  lemma PartFolds(x: Value, op: Token, y: Value)
    requires Number(x) && Number(y) && FieldOp(op)
    ensures Step(RealOp(x, op, y), x, op, y)
  {
    if Exact(x) && Exact(y) {
      FieldFolds(x, op, y);
    }
  }

  lemma PartsFold()
    ensures Steps(RealOp)
  {
    forall x, op, y | Number(x) && Number(y) && FieldOp(op)
      ensures Step(RealOp(x, op, y), x, op, y)
    {
      PartFolds(x, op, y);
    }
  }

  lemma SumFolds(f: (Value, Token, Value) -> Outcome<Value>, a: Value, b: Value, op: Token, c: Value, d: Value)
    requires Steps(f) && Exact(a) && Exact(b) && Exact(c) && Exact(d) && (op == ADD || op == SUB)
    ensures PartsStand(ComplexOp(f, a, b, op, c, d), Field(op, Mean(a), Mean(c)), Field(op, Mean(b), Mean(d)))
  {
    assert Step(f(a, op, c), a, op, c);
    assert Step(f(b, op, d), b, op, d);
  }

  /** `v` stands for the number `r`, unless it is a floatVal. */
  ghost predicate Stands(v: Value, r: real) {
    Number(v) && (Exact(v) ==> Mean(v) == r)
  }

  ghost predicate StandsAfter(o: Outcome<Value>, op: Token, q: real, r: real) {
    if o.Panic? then op == QUO && q == 0.0 else Stands(o.value, r) && (op == QUO && Exact(o.value) ==> q != 0.0)
  }

  lemma Chain(f: (Value, Token, Value) -> Outcome<Value>, x: Value, op: Token, y: Value, p: real, q: real, r: real)
    requires Steps(f) && FieldOp(op) && Stands(x, p) && Stands(y, q)
    requires (op == QUO && q == 0.0) || r == Field(op, p, q)
    ensures StandsAfter(f(x, op, y), op, q, r)
  {
    assert Step(f(x, op, y), x, op, y);
  }

  lemma Times(f: (Value, Token, Value) -> Outcome<Value>, x: Value, y: Value, r: real)
    requires Steps(f) && Exact(x) && Exact(y) && r == Mean(x) * Mean(y)
    ensures StandsAfter(f(x, MUL, y), MUL, 0.0, r)
  {
    Chain(f, x, MUL, y, Mean(x), Mean(y), r);
  }

  lemma ProductFolds(f: (Value, Token, Value) -> Outcome<Value>, a: Value, b: Value, c: Value, d: Value,
                     ac: real, bd: real, bc: real, ad: real)
    requires Steps(f)
    requires StandsAfter(f(a, MUL, c), MUL, 0.0, ac) && StandsAfter(f(b, MUL, d), MUL, 0.0, bd)
    requires StandsAfter(f(b, MUL, c), MUL, 0.0, bc) && StandsAfter(f(a, MUL, d), MUL, 0.0, ad)
    ensures PartsStand(ComplexOp(f, a, b, MUL, c, d), ac - bd, bc + ad)
  {
    Chain(f, f(a, MUL, c).value, SUB, f(b, MUL, d).value, ac, bd, ac - bd);
    Chain(f, f(b, MUL, c).value, ADD, f(a, MUL, d).value, bc, ad, bc + ad);
  }

  lemma QuotientFolds(f: (Value, Token, Value) -> Outcome<Value>, a: Value, b: Value, c: Value, d: Value,
                      ac: real, bd: real, bc: real, ad: real, cc: real, dd: real)
    requires Steps(f)
    requires StandsAfter(f(a, MUL, c), MUL, 0.0, ac) && StandsAfter(f(b, MUL, d), MUL, 0.0, bd)
    requires StandsAfter(f(b, MUL, c), MUL, 0.0, bc) && StandsAfter(f(a, MUL, d), MUL, 0.0, ad)
    requires StandsAfter(f(c, MUL, c), MUL, 0.0, cc) && StandsAfter(f(d, MUL, d), MUL, 0.0, dd)
    ensures QuotientStands(ComplexOp(f, a, b, QUO, c, d), ac + bd, bc - ad, cc + dd)
  {
    Chain(f, f(c, MUL, c).value, ADD, f(d, MUL, d).value, cc, dd, cc + dd);
    Chain(f, f(a, MUL, c).value, ADD, f(b, MUL, d).value, ac, bd, ac + bd);
    Chain(f, f(b, MUL, c).value, SUB, f(a, MUL, d).value, bc, ad, bc - ad);
    var s := f(f(c, MUL, c).value, ADD, f(d, MUL, d).value).value;
    var p := f(f(a, MUL, c).value, ADD, f(b, MUL, d).value).value;
    var q := f(f(b, MUL, c).value, SUB, f(a, MUL, d).value).value;
    Chain(f, p, QUO, s, ac + bd, cc + dd, if cc + dd == 0.0 then 0.0 else (ac + bd) / (cc + dd));
    Chain(f, q, QUO, s, bc - ad, cc + dd, if cc + dd == 0.0 then 0.0 else (bc - ad) / (cc + dd));
  }

  // The parts of an operand, real or complex.

  predicate ExactParts(x: Value) {
    if x.Complex? then Exact(x.re) && Exact(x.im) else Exact(x)
  }

  ghost function Re(x: Value): real
    requires ExactParts(x)
  {
    if x.Complex? then Mean(x.re) else Mean(x)
  }

  ghost function Im(x: Value): real
    requires ExactParts(x)
  {
    if x.Complex? then Mean(x.im) else 0.0
  }

  /** `x` is an exact value for re + i*im. */
  ghost predicate Denotes(x: Value, re: real, im: real) {
    ExactParts(x) && Re(x) == re && Im(x) == im
  }

  /** A mixed or complex operation works on the operands' parts by an operation that folds exactly. */
  lemma ComplexMatch(x: Value, op: Token, y: Value)
    returns (f: (Value, Token, Value) -> Outcome<Value>, a: Value, b: Value, c: Value, d: Value)
    requires ExactParts(x) && ExactParts(y) && (x.Complex? || y.Complex?)
    ensures BinaryOp(x, op, y) == ComplexOp(f, a, b, op, c, d) && Steps(f) && Zeros(f)
    ensures Exact(a) && Exact(b) && Mean(a) == Re(x) && Mean(b) == Im(x)
    ensures Exact(c) && Exact(d) && Mean(c) == Re(y) && Mean(d) == Im(y)
  {
    PartsFold();
    RealZeros();
    f := RealOp;
    a, b := if x.Complex? then x.re else x, if x.Complex? then x.im else Int64(0);
    c, d := if y.Complex? then y.re else y, if y.Complex? then y.im else Int64(0);
  }

  /** The outcome is a complex value standing for re + i*im, part by part unless a part is a floatVal. */
  ghost predicate PartsStand(o: Outcome<Value>, re: real, im: real) {
    o.Ok? && o.value.Complex? && Stands(o.value.re, re) && Stands(o.value.im, im)
  }

  /** Complex sums and differences. */
  lemma ComplexSumFolds(x: Value, op: Token, y: Value)
    requires ExactParts(x) && ExactParts(y) && (x.Complex? || y.Complex?) && (op == ADD || op == SUB)
    ensures PartsStand(BinaryOp(x, op, y), Field(op, Re(x), Re(y)), Field(op, Im(x), Im(y)))
  {
    var f, a, b, c, d := ComplexMatch(x, op, y);
    SumFolds(f, a, b, op, c, d);
  }

  lemma Multiply(f: (Value, Token, Value) -> Outcome<Value>, x: Value, y: Value, p: real, q: real) returns (r: real)
    requires Steps(f) && Exact(x) && Exact(y) && Mean(x) == p && Mean(y) == q
    ensures r == p * q && StandsAfter(f(x, MUL, y), MUL, 0.0, r)
  {
    r := p * q;
    Times(f, x, y, r);
  }

  lemma ProductOfParts(f: (Value, Token, Value) -> Outcome<Value>, a: Value, b: Value, c: Value, d: Value,
                       p: real, q: real, u: real, v: real)
    requires Steps(f) && Exact(a) && Exact(b) && Exact(c) && Exact(d)
    requires Mean(a) == p && Mean(b) == q && Mean(c) == u && Mean(d) == v
    ensures PartsStand(ComplexOp(f, a, b, MUL, c, d), p * u - q * v, q * u + p * v)
  {
    var ac := Multiply(f, a, c, p, u);
    var bd := Multiply(f, b, d, q, v);
    var bc := Multiply(f, b, c, q, u);
    var ad := Multiply(f, a, d, p, v);
    ProductFolds(f, a, b, c, d, ac, bd, bc, ad);
  }

  /** Complex products. */
  lemma ComplexProductFolds(x: Value, y: Value, p: real, q: real, u: real, v: real)
    requires Denotes(x, p, q) && Denotes(y, u, v) && (x.Complex? || y.Complex?)
    ensures PartsStand(BinaryOp(x, MUL, y), p * u - q * v, q * u + p * v)
  {
    var f, a, b, c, d := ComplexMatch(x, MUL, y);
    ProductOfParts(f, a, b, c, d, p, q, u, v);
  }

  lemma QuotientOfParts(f: (Value, Token, Value) -> Outcome<Value>, a: Value, b: Value, c: Value, d: Value,
                        p: real, q: real, u: real, v: real)
    requires Steps(f) && Exact(a) && Exact(b) && Exact(c) && Exact(d)
    requires Mean(a) == p && Mean(b) == q && Mean(c) == u && Mean(d) == v
    ensures QuotientStands(ComplexOp(f, a, b, QUO, c, d), p * u + q * v, q * u - p * v, u * u + v * v)
  {
    var ac := Multiply(f, a, c, p, u);
    var bd := Multiply(f, b, d, q, v);
    var bc := Multiply(f, b, c, q, u);
    var ad := Multiply(f, a, d, p, v);
    var cc := Multiply(f, c, c, u, u);
    var dd := Multiply(f, d, d, v, v);
    QuotientFolds(f, a, b, c, d, ac, bd, bc, ad, cc, dd);
  }

  /** The outcome of dividing, apart from a zero divisor: re/s and im/s unless they are floatVals. */
  ghost predicate QuotientStands(o: Outcome<Value>, re: real, im: real, s: real) {
    s != 0.0 ==> o.Ok? && o.value.Complex? && Stands(o.value.re, re / s) && Stands(o.value.im, im / s)
  }

  ghost predicate ExactZero(x: Value) {
    Exact(x) && Mean(x) == 0.0
  }

  /** Zero is zero in every representation. */
  lemma ZeroNumerator(x: Value)
    requires ExactZero(x)
    ensures x.Rat? ==> x.num == 0
    ensures IsInt(x) ==> x.n == 0
  {
    if x.Rat? { Whole(x.num as real, x.den as real); }
  }

  lemma ReduceZero(q: int)
    requires q != 0
    ensures MakeRat(Reduce(0, q)) == Rat(0, 1)
  {
    assert Gcd(0, Abs(q)) == Gcd(Abs(q), 0) == Abs(q);
    Cancel(Abs(q), 1);
    Cancel(Abs(q), 0);
    assert BitLen(1) == 1 + BitLen(0);
  }

  lemma RatZero(a: int, b: int, c: int, d: int)
    requires b > 0 && d > 0
    ensures a == 0 || c == 0 ==> RatOp(a, b, MUL, c, d) == Ok(Rat(0, 1))
    ensures a == 0 && c == 0 ==> RatOp(a, b, ADD, c, d) == Ok(Rat(0, 1))
  {
    Positive(b, d);
    ReduceZero(b * d);
    ZeroTimes(a, c);
    ZeroTimes(a, d);
    ZeroTimes(c, b);
  }

  lemma ZeroTimes(a: int, b: int)
    ensures a == 0 || b == 0 ==> a * b == 0
  {
  }

  lemma IntZero(m: int, n: int)
    ensures IsInt64(m) && IsInt64(n) && (m == 0 || n == 0) ==> Int64Op(m, MUL, n) == Ok(Int64(0))
    ensures m == 0 || n == 0 ==> BigOp(m, MUL, n) == Ok(Int64(0))
    ensures m == 0 && n == 0 ==> Int64Op(m, ADD, n) == BigOp(m, ADD, n) == Ok(Int64(0))
  {
    ZeroTimes(m, n);
  }

  /** Matching keeps a zero a zero. */
  lemma ZeroMatch(x: Value, y: Value)
    requires Exact(x) && Exact(y)
    ensures var (a, b) := Match(x, y);
            Exact(a) && Exact(b) && Ord(a) == Ord(b) && (ExactZero(x) ==> ExactZero(a)) && (ExactZero(y) ==> ExactZero(b))
  {
    MatchKeepsMeaning(x, y);
  }

  /** A product with an exact zero is an exact zero, and so is the sum of two. */
  lemma ZeroStays(x: Value, y: Value)
    requires Exact(x) && Exact(y)
    ensures ExactZero(x) || ExactZero(y) ==> RealOp(x, MUL, y).Ok? && ExactZero(RealOp(x, MUL, y).value)
    ensures ExactZero(x) && ExactZero(y) ==> RealOp(x, ADD, y).Ok? && ExactZero(RealOp(x, ADD, y).value)
  {
    var (a, b) := Match(x, y);
    ZeroMatch(x, y);
    if ExactZero(a) { ZeroNumerator(a); }
    if ExactZero(b) { ZeroNumerator(b); }
    assert ExactZero(Rat(0, 1)) by { Quotient(0.0, 1.0, 0.0); }
    if a.Rat? {
      RatZero(a.num, a.den, b.num, b.den);
    } else {
      IntZero(a.n, b.n);
    }
  }

  /** An operation that keeps exact zeros and panics on dividing by one. */
  ghost predicate Zeros(f: (Value, Token, Value) -> Outcome<Value>) {
    && (forall x, y {:trigger f(x, MUL, y)} :: Exact(x) && ExactZero(y) ==> f(x, MUL, y).Ok? && ExactZero(f(x, MUL, y).value))
    && (forall x, y {:trigger f(x, ADD, y)} :: ExactZero(x) && ExactZero(y) ==> f(x, ADD, y).Ok? && ExactZero(f(x, ADD, y).value))
    && (forall x, y {:trigger f(x, QUO, y)} :: Exact(x) && ExactZero(y) ==> f(x, QUO, y) == Panic)
  }

  lemma RealZeros()
    ensures Zeros(RealOp)
  {
    forall x, y | Exact(x) && ExactZero(y)
      ensures RealOp(x, MUL, y).Ok? && ExactZero(RealOp(x, MUL, y).value)
      ensures RealOp(x, QUO, y) == Panic
    {
      ZeroStays(x, y);
      FieldFolds(x, QUO, y);
    }
    forall x, y | ExactZero(x) && ExactZero(y)
      ensures RealOp(x, ADD, y).Ok? && ExactZero(RealOp(x, ADD, y).value)
    {
      ZeroStays(x, y);
    }
  }

  lemma ZeroDivisor(f: (Value, Token, Value) -> Outcome<Value>, a: Value, b: Value, c: Value, d: Value)
    requires Zeros(f) && Exact(a) && Exact(b) && ExactZero(c) && ExactZero(d)
    ensures ComplexOp(f, a, b, QUO, c, d) == Panic
  {
    var ac, bd, cc, dd := f(a, MUL, c).value, f(b, MUL, d).value, f(c, MUL, c).value, f(d, MUL, d).value;
    var s, p := f(cc, ADD, dd).value, f(ac, ADD, bd).value;
    assert f(p, QUO, s) == Panic;
  }

  /** A product, with its sign. */
  function Product(u: real, v: real): (r: real)
    ensures u > 0.0 && v > 0.0 ==> r > 0.0
    ensures u < 0.0 && v < 0.0 ==> r > 0.0
    ensures u == 0.0 || v == 0.0 ==> r == 0.0
  {
    u * v
  }

  lemma NormIsZero(u: real, v: real)
    ensures u * u + v * v == 0.0 <==> u == 0.0 && v == 0.0
  {
    assert Product(u, u) == u * u && Product(v, v) == v * v;
  }

  /** Complex quotients; exactly a zero divisor panics. */
  lemma ComplexQuotientFolds(x: Value, y: Value, p: real, q: real, u: real, v: real)
    requires Denotes(x, p, q) && Denotes(y, u, v) && (x.Complex? || y.Complex?)
    ensures BinaryOp(x, QUO, y) == Panic <==> u == 0.0 && v == 0.0
    ensures QuotientStands(BinaryOp(x, QUO, y), p * u + q * v, q * u - p * v, u * u + v * v)
  {
    var f, a, b, c, d := ComplexMatch(x, QUO, y);
    QuotientOfParts(f, a, b, c, d, p, q, u, v);
    NormIsZero(u, v);
    if u == 0.0 && v == 0.0 { ZeroDivisor(f, a, b, c, d); }
  }

  /** Complex equality is equality of both parts; complex values have no order. */
  lemma ComplexComparisonFolds(x: Value, op: Token, y: Value)
    requires ExactParts(x) && ExactParts(y) && (x.Complex? || y.Complex?)
    ensures op == EQL ==> Compare(x, op, y) == Ok(Re(x) == Re(y) && Im(x) == Im(y))
    ensures op == NEQ ==> Compare(x, op, y) == Ok(Re(x) != Re(y) || Im(x) != Im(y))
    ensures op != EQL && op != NEQ ==> Compare(x, op, y) == Panic
  {
    var a, b := if x.Complex? then x.re else x, if x.Complex? then x.im else Int64(0);
    var c, d := if y.Complex? then y.re else y, if y.Complex? then y.im else Int64(0);
    ComparisonFolds(a, EQL, c);
    ComparisonFolds(b, EQL, d);
  }

  lemma ComplexNegationFolds(y: Value)
    requires ExactParts(y) && y.Complex?
    ensures PartsStand(UnaryOp(SUB, y, 0), 0.0 - Re(y), 0.0 - Im(y))
  {
    NegationFolds(y.re);
    NegationFolds(y.im);
  }

  // ----- lowest terms -------------------------------------------------

  lemma {:induction false} GcdScale(g: nat, x: nat, y: nat)
    requires g > 0
    ensures g * x >= 0 && g * y >= 0 && Gcd(g * x, g * y) == g * Gcd(x, y)
    decreases y
  {
    if y > 0 {
      var q, r := x / y, x % y;
      assert x == q * y + r;
      ScaleDivision(g, x, y, q, r);
      GcdScale(g, y, r);
    }
  }

  lemma ScaleDivision(g: nat, x: nat, y: nat, q: int, r: nat)
    requires g > 0 && x == q * y + r && r < y
    ensures g * y > 0 && (g * x) % (g * y) == g * r
  {
    assert g * y > 0 && 0 <= g * r < g * y;
    assert g * x == q * (g * y) + g * r by { ScaleSum(g, q, y, r); }
    ModUnique(g * x, g * y, q, g * r);
  }

  lemma ScaleSum(g: int, q: int, y: int, r: int)
    ensures g * (q * y + r) == q * (g * y) + g * r
  {
  }

  /** Fractions come out in lowest terms. */
  lemma ReduceIsLowest(p: int, q: int)
    requires q != 0
    ensures Reduce(p, q).Rat? && Reduce(p, q).den > 0 && Gcd(Abs(Reduce(p, q).num), Reduce(p, q).den) == 1
  {
    ReducedDen(p, q);
    var g := Gcd(Abs(p), Abs(q));
    GcdDivides(Abs(p), Abs(q));
    DividesNeg(g, p);
    var k, l := Abs(p) / g, Abs(q) / g;
    NotNegative(g, k);
    GcdScale(g, k, l);
    OnlyOne(g, Gcd(k, l));
    NegDivide(g, p);
  }

  lemma NotNegative(g: nat, k: int)
    requires g > 0 && g * k >= 0
    ensures k >= 0
  {
    assert k < 0 ==> g * k < 0;
  }

  lemma OnlyOne(g: nat, k: nat)
    requires g > 0 && g == g * k
    ensures k == 1
  {
    assert k >= 2 ==> g * k >= 2 * g;
    assert k == 0 ==> g * k == 0;
  }

  lemma NegDivide(g: nat, p: int)
    requires Divides(g, Abs(p))
    ensures Abs(p / g) == Abs(p) / g && Abs((-p) / g) == Abs(p) / g
  {
    var k := Abs(p) / g;
    NotNegative(g, k);
    NegProduct(g, k);
    Cancel(g, 0 - k);
  }
}
