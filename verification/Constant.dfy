/**
 * Constant folding over exact integers and fractions with int64 fast paths (constant/value.go).
 *
 * A value is in one of several representations: int64Val and intVal for integers, ratVal for
 * fractions, floatVal for what no longer fits a fraction, complexVal for pairs.  An operation
 * first brings both operands to one representation.
 *
 * On int64Vals it computes in 64 bits where guards say that this cannot overflow, and in
 * unbounded integers elsewhere; Wrap64 is written out so that the guards have something to
 * prove.  Fractions are kept in lowest terms and turn into floatVals when they grow too long.
 *
 * A floatVal carries no digits here: what happens to one is left open, except that operations
 * on it give another.
 *
 * Operations the source refuses, and divisions by zero, panic there and are the outcome Panic
 * here.
 */
module Constant {

  /** The result of an operation that may panic. */
  datatype Outcome<+T> = Ok(value: T) | Panic {
    predicate IsFailure() { Panic? }
    function PropagateFailure<U>(): Outcome<U>
      requires Panic?
    {
      Outcome.Panic
    }
    function Extract(): T
      requires Ok?
    {
      value
    }
  }

  /** Float stands for any floatVal: its digits are not modelled. */
  datatype Value =
    | Unknown
    | Bool(b: bool)
    | Int64(n: int)
    | Big(n: int)
    | Rat(num: int, den: int)
    | Float
    | Complex(re: Value, im: Value)

  datatype Token =
    | ADD | SUB | MUL | QUO | QUO_ASSIGN | REM | AND | OR | XOR | AND_NOT
    | LAND | LOR | NOT | EQL | NEQ | LSS | LEQ | GTR | GEQ

  const MIN := -0x8000_0000_0000_0000
  const MAX := 0x7fff_ffff_ffff_ffff

  predicate IsInt64(n: int) {
    MIN <= n <= MAX
  }

  /** Two's-complement wrap-around to 64 bits. */
  function Wrap64(n: int): (r: int)
    ensures IsInt64(r)
    ensures IsInt64(n) ==> r == n
  {
    (n - MIN) % 0x1_0000_0000_0000_0000 + MIN
  }

  predicate Is63bit(n: int) {
    -0x4000_0000_0000_0000 <= n <= 0x3fff_ffff_ffff_ffff
  }

  predicate Is32bit(n: int) {
    -0x8000_0000 <= n <= 0x7fff_ffff
  }

  function Abs(n: int): nat {
    if n < 0 then -n else n
  }

  /** Division truncating toward zero. */
  function Quo(a: int, b: int): int
    requires b != 0
  {
    if a >= 0 then a / b else -((-a) / b)
  }

  function Rem(a: int, b: int): int
    requires b != 0
  {
    if a >= 0 then a % b else -((-a) % b)
  }

  // ----- bits ---------------------------------------------------------

  predicate Odd(a: int) {
    a % 2 == 1
  }

  /** A bitwise operation on two's-complement integers of any size. */
  function Bits(f: (bool, bool) -> bool, a: int, b: int): int
    decreases Spread(a) + Spread(b)
  {
    var low := f(Odd(a), Odd(b));
    if Spread(a) + Spread(b) == 0 then (if low then -1 else 0)
    else 2 * Bits(f, a / 2, b / 2) + (if low then 1 else 0)
  }

  /** Zero for the two integers whose bits are all the same. */
  function Spread(a: int): nat {
    if a >= 0 then a else -1 - a
  }

  function BitLen(n: int): nat
    decreases Abs(n)
  {
    if n == 0 then 0 else 1 + BitLen(Abs(n) / 2)
  }

  const MAX_EXP := 4096

  function Truth(op: Token): (bool, bool) -> bool {
    match op
    case AND => (p, q) => p && q
    case OR => (p, q) => p || q
    case XOR => (p, q) => p != q
    case _ => (p, q) => p && !q
  }

  // ----- fractions ----------------------------------------------------

  function Gcd(a: nat, b: nat): nat
    decreases b
  {
    if b == 0 then a else Gcd(b, a % b)
  }

  /** The fraction p/q in lowest terms with a positive denominator. */
  function Reduce(p: int, q: int): Value
    requires q != 0
  {
    var p', q' := if q < 0 then -p else p, Abs(q);
    var g := Gcd(Abs(p), q');
    if g == 0 then Rat(p', q') else Rat(p' / g, q' / g)
  }

  function MakeInt(n: int): Value {
    if IsInt64(n) then Int64(n) else Big(n)
  }

  /** Keeps a fraction of moderate size, turns a larger one into a floatVal. */
  function MakeRat(r: Value): Value
    requires r.Rat?
  {
    if BitLen(r.num) < MAX_EXP && BitLen(r.den) < MAX_EXP then r else Float
  }

  // ----- operations ---------------------------------------------------

  function Ord(x: Value): nat {
    match x
    case Unknown => 0
    case Bool(_) => 1
    case Int64(_) => 2
    case Big(_) => 3
    case Rat(_, _) => 4
    case Float => 5
    case Complex(_, _) => 6
  }

  /** Raises `x` to the representation of `y`, for Ord(x) <= Ord(y). */
  function Raise(x: Value, y: Value): (Value, Value) {
    match x
    case Unknown => (x, x)
    case Bool(_) => (x, y)
    case Complex(_, _) => (x, y)
    case Int64(n) =>
      (match y
       case Int64(_) => (x, y)
       case Big(_) => (Big(n), y)
       case Rat(_, _) => (Rat(n, 1), y)
       case Float => (Float, y)
       case Complex(_, _) => (Complex(x, Int64(0)), y)
       case _ => (x, x))
    case Big(n) =>
      (match y
       case Big(_) => (x, y)
       case Rat(_, _) => (Rat(n, 1), y)
       case Float => (Float, y)
       case Complex(_, _) => (Complex(x, Int64(0)), y)
       case _ => (x, x))
    case Rat(_, _) =>
      (match y
       case Rat(_, _) => (x, y)
       case Float => (Float, y)
       case Complex(_, _) => (Complex(x, Int64(0)), y)
       case _ => (x, x))
    case Float =>
      (match y
       case Float => (x, y)
       case Complex(_, _) => (Complex(x, Int64(0)), y)
       case _ => (x, x))
  }

  /** match: both operands in the smaller representation that holds both. */
  function Match(x: Value, y: Value): (Value, Value) {
    if Ord(x) > Ord(y) then var (b, a) := Raise(y, x); (a, b) else Raise(x, y)
  }

  function Int64Op(a: int, op: Token, b: int): Outcome<Value> {
    match op
    case ADD => Ok(if !Is63bit(a) || !Is63bit(b) then MakeInt(a + b) else Int64(Wrap64(a + b)))
    case SUB => Ok(if !Is63bit(a) || !Is63bit(b) then MakeInt(a - b) else Int64(Wrap64(a - b)))
    case MUL => Ok(if !Is32bit(a) || !Is32bit(b) then MakeInt(a * b) else Int64(Wrap64(a * b)))
    case QUO => if b == 0 then Panic else Ok(MakeRat(Reduce(a, b)))
    case QUO_ASSIGN => if b == 0 then Panic else Ok(Int64(Wrap64(Quo(a, b))))
    case REM => if b == 0 then Panic else Ok(Int64(Wrap64(Rem(a, b))))
    case AND => Ok(Int64(Bits(Truth(op), a, b)))
    case OR => Ok(Int64(Bits(Truth(op), a, b)))
    case XOR => Ok(Int64(Bits(Truth(op), a, b)))
    case AND_NOT => Ok(Int64(Bits(Truth(op), a, b)))
    case _ => Panic
  }

  function BigOp(a: int, op: Token, b: int): Outcome<Value> {
    match op
    case ADD => Ok(MakeInt(a + b))
    case SUB => Ok(MakeInt(a - b))
    case MUL => Ok(MakeInt(a * b))
    case QUO => if b == 0 then Panic else Ok(MakeRat(Reduce(a, b)))
    case QUO_ASSIGN => if b == 0 then Panic else Ok(MakeInt(Quo(a, b)))
    case REM => if b == 0 then Panic else Ok(MakeInt(Rem(a, b)))
    case AND => Ok(MakeInt(Bits(Truth(op), a, b)))
    case OR => Ok(MakeInt(Bits(Truth(op), a, b)))
    case XOR => Ok(MakeInt(Bits(Truth(op), a, b)))
    case AND_NOT => Ok(MakeInt(Bits(Truth(op), a, b)))
    case _ => Panic
  }

  /** big.Rat arithmetic on a/b and c/d. */
  function RatOp(a: int, b: int, op: Token, c: int, d: int): Outcome<Value>
    requires b > 0 && d > 0
  {
    match op
    case ADD => Positive(b, d); Ok(MakeRat(Reduce(a * d + c * b, b * d)))
    case SUB => Positive(b, d); Ok(MakeRat(Reduce(a * d - c * b, b * d)))
    case MUL => Positive(b, d); Ok(MakeRat(Reduce(a * c, b * d)))
    case QUO => if c == 0 then Panic else NonZero(b, c); Ok(MakeRat(Reduce(a * d, b * c)))
    case _ => Panic
  }

  lemma Positive(b: int, d: int)
    requires b > 0 && d > 0
    ensures b * d > 0
  {
  }

  lemma NonZero(b: int, c: int)
    requires b != 0 && c != 0
    ensures b * c != 0
  {
  }

  /** Fractions have positive denominators. */
  predicate Sane(x: Value) {
    x.Rat? ==> x.den > 0
  }

  /** BinaryOp on values that are not complex; no fraction has another denominator than a positive one. */
  function RealOp(x: Value, op: Token, y: Value): Outcome<Value> {
    var (a, b) := Match(x, y);
    match a
    case Unknown => Ok(Unknown)
    case Bool(p) =>
      if !b.Bool? then Panic
      else if op == LAND then Ok(Bool(p && b.b)) else if op == LOR then Ok(Bool(p || b.b)) else Panic
    case Int64(m) => if b.Int64? then Int64Op(m, op, b.n) else Panic
    case Big(m) => if b.Big? then BigOp(m, op, b.n) else Panic
    case Rat(m, n) => if b.Rat? && Sane(a) && Sane(b) then RatOp(m, n, op, b.num, b.den) else Panic
    case Float => if b.Float? && op in {ADD, SUB, MUL, QUO} then Ok(Float) else Panic
    case Complex(_, _) => Panic
  }

  /** A complex value is made of two values that are not complex. */
  predicate Flat(x: Value) {
    x.Complex? ==> !x.re.Complex? && !x.im.Complex?
  }

  lemma ReducedDen(p: int, q: int)
    requires q != 0
    ensures Reduce(p, q).Rat? && Reduce(p, q).den > 0
  {
    var g := Gcd(Abs(p), Abs(q));
    GcdDivides(Abs(p), Abs(q));
    DivideOut(Abs(q), g);
  }

  /** g divides n. */
  predicate Divides(g: nat, n: int) {
    g > 0 && n == g * (n / g)
  }

  lemma DivideOut(n: int, g: nat)
    requires n > 0 && Divides(g, n)
    ensures n / g > 0
  {
    NotPositive(g, n / g);
  }

  lemma NotPositive(g: nat, k: int)
    ensures k <= 0 ==> g * k <= 0
  {
  }

  lemma Multiple(g: nat, k: int, n: int)
    requires g > 0 && n == g * k
    ensures Divides(g, n)
  {
    Cancel(g, k);
  }

  lemma Cancel(g: nat, k: int)
    requires g > 0
    ensures g * k / g == k
  {
    var n := g * k;
    var q, r := n / g, n % g;
    assert n == q * g + r;
    Remainder(g, k, q, r);
  }

  lemma Remainder(g: nat, k: int, q: int, r: int)
    requires g * k == q * g + r && 0 <= r < g
    ensures k == q
  {
    var d := k - q;
    assert g * d == r;
    assert d >= 1 ==> g * d >= g;
    assert d <= -1 ==> g * d <= 0 - g;
  }

  lemma {:induction false} GcdDivides(a: nat, b: nat)
    requires a > 0 || b > 0
    ensures Divides(Gcd(a, b), a) && Divides(Gcd(a, b), b)
    decreases b
  {
    if b == 0 {
      Multiple(a, 1, a);
      Multiple(a, 0, 0);
    } else {
      GcdDivides(b, a % b);
      var g := Gcd(b, a % b);
      var k, l, q := b / g, a % b / g, a / b;
      Combine(g, q, k, l);
      assert a == q * b + a % b;
      Multiple(g, q * k + l, a);
    }
  }

  lemma Combine(g: nat, q: int, k: int, l: int)
    ensures q * (g * k) + g * l == g * (q * k + l)
  {
  }

  /** BinaryOp; the parts of complex operands are combined by the same operation. */
  function BinaryOp(x: Value, op: Token, y: Value): Outcome<Value>
    requires Flat(x) && Flat(y)
  {
    var (a, b) := Match(x, y);
    if !a.Complex? then RealOp(x, op, y)
    else if !b.Complex? then Panic
    else ComplexOp(RealOp, a.re, a.im, op, b.re, b.im)
  }

  /** The complex case, over the operation `f` on the parts. */
  function ComplexOp(f: (Value, Token, Value) -> Outcome<Value>, a: Value, b: Value, op: Token, c: Value, d: Value): Outcome<Value> {
    match op
    case ADD =>
      var re :- f(a, ADD, c);
      var im :- f(b, ADD, d);
      Ok(Complex(re, im))
    case SUB =>
      var re :- f(a, SUB, c);
      var im :- f(b, SUB, d);
      Ok(Complex(re, im))
    case MUL =>
      var ac :- f(a, MUL, c);
      var bd :- f(b, MUL, d);
      var bc :- f(b, MUL, c);
      var ad :- f(a, MUL, d);
      var re :- f(ac, SUB, bd);
      var im :- f(bc, ADD, ad);
      Ok(Complex(re, im))
    case QUO =>
      var ac :- f(a, MUL, c);
      var bd :- f(b, MUL, d);
      var bc :- f(b, MUL, c);
      var ad :- f(a, MUL, d);
      var cc :- f(c, MUL, c);
      var dd :- f(d, MUL, d);
      var s :- f(cc, ADD, dd);
      var p :- f(ac, ADD, bd);
      var re :- f(p, QUO, s);
      var q :- f(bc, SUB, ad);
      var im :- f(q, QUO, s);
      Ok(Complex(re, im))
    case _ => Panic
  }

  function RealNeg(y: Value): Outcome<Value> {
    match y
    case Unknown => Ok(y)
    case Int64(n) => Ok(var z := Wrap64(-n); if z != n then Int64(z) else MakeInt(-n))
    case Big(n) => Ok(MakeInt(-n))
    case Rat(p, q) => Ok(MakeRat(Rat(-p, q)))
    case Float => Ok(Float)
    case _ => Panic
  }

  function Pow2(k: nat): (r: nat)
    ensures r > 0
  {
    if k == 0 then 1 else 2 * Pow2(k - 1)
  }

  /** UnaryOp; `prec` is the size in bits of the result of XOR, or 0. */
  function UnaryOp(op: Token, y: Value, prec: nat): Outcome<Value> {
    match op
    case ADD => if y.Bool? then Panic else Ok(y)
    case SUB =>
      if y.Complex? then
        var re :- RealNeg(y.re);
        var im :- RealNeg(y.im);
        Ok(Complex(re, im))
      else RealNeg(y)
    case XOR =>
      (match y
       case Unknown => Ok(y)
       case Int64(n) => Ok(MakeInt(Complement(n, prec)))
       case Big(n) => Ok(MakeInt(Complement(n, prec)))
       case _ => Panic)
    case NOT => if y.Unknown? then Ok(y) else if y.Bool? then Ok(Bool(!y.b)) else Panic
    case _ => Panic
  }

  /** big.Int Not, then and-not with -1 shifted left by prec. */
  function Complement(n: int, prec: nat): int {
    if prec > 0 then Bits(Truth(AND_NOT), -1 - n, 0 - Pow2(prec)) else -1 - n
  }

  function CmpZero(c: int, op: Token): Outcome<bool> {
    match op
    case EQL => Ok(c == 0)
    case NEQ => Ok(c != 0)
    case LSS => Ok(c < 0)
    case LEQ => Ok(c <= 0)
    case GTR => Ok(c > 0)
    case GEQ => Ok(c >= 0)
    case _ => Panic
  }

  /** Compare on values that are neither complex nor floatVal. */
  function RealCompare(x: Value, op: Token, y: Value): Outcome<bool>
    requires !x.Float? && !y.Float?
  {
    var (a, b) := Match(x, y);
    match a
    case Unknown => Ok(false)
    case Bool(p) => if !b.Bool? then Panic else if op == EQL then Ok(p == b.b) else if op == NEQ then Ok(p != b.b) else Panic
    case Int64(m) => if b.Int64? then CmpZero(m - b.n, op) else Panic
    case Big(m) => if b.Big? then CmpZero(m - b.n, op) else Panic
    case Rat(m, n) => if b.Rat? then CmpZero(m * b.den - b.num * n, op) else Panic
    case _ => Panic
  }

  function Compare(x: Value, op: Token, y: Value): Outcome<bool>
    requires Flat(x) && Flat(y) && NoFloat(x) && NoFloat(y)
  {
    var (a, b) := Match(x, y);
    if !a.Complex? then RealCompare(x, op, y)
    else if !b.Complex? then Panic
    else
      var re :- RealCompare(a.re, EQL, b.re);
      var im :- RealCompare(a.im, EQL, b.im);
      if op == EQL then Ok(re && im) else if op == NEQ then Ok(!re || !im) else Panic
  }

  predicate NoFloat(x: Value) {
    !x.Float? && (x.Complex? ==> !x.re.Float? && !x.im.Float?)
  }
}
