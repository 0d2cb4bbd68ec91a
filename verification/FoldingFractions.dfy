/** When constant folding of constant/value.go keeps a fraction, and when it gives a floatVal. */
module FoldingFractions {
  import opened Constant
  import opened FoldingExact

  // FoldingExact says what a result denotes unless it is a floatVal.  A fraction in lowest terms
  // is determined by its value, so the result is determined too: it is that fraction when both
  // of its terms are shorter than 4096 bits, and a floatVal otherwise.

  // ----- sizes ------------------------------------------------------------

  /** A number has at most k bits exactly when it is below 2^k. */
  lemma {:induction false} BitLenIs(n: int, k: nat)
    ensures BitLen(n) <= k <==> Abs(n) < Pow2(k)
    decreases k
  {
    if k > 0 && n != 0 {
      BitLenIs(Abs(n) / 2, k - 1);
      assert Abs(Abs(n) / 2) == Abs(n) / 2;
    }
  }

  /** Both terms have fewer than 4096 bits; `k` is 4095. */
  predicate Moderate(p: int, q: int, k: nat) {
    Abs(p) < Pow2(k) && Abs(q) < Pow2(k)
  }

  lemma MakeRatIs(p: int, q: int, k: nat)
    requires k == 4095
    ensures MakeRat(Rat(p, q)) == if Moderate(p, q, k) then Rat(p, q) else Float
  {
    BitLenIs(p, k);
    BitLenIs(q, k);
  }

  // ----- lowest terms -------------------------------------------------------

  /** No number but 1 divides both. */
  ghost predicate Coprime(p: int, q: int) {
    forall d: nat {:trigger Divides(d, p)} {:trigger Divides(d, q)} :: Divides(d, p) && Divides(d, q) ==> d == 1
  }

  /** The greatest common divisor is a sum of multiples. */
  lemma {:induction false} Bezout(a: nat, b: nat) returns (u: int, v: int)
    ensures u * a + v * b == Gcd(a, b)
    decreases b
  {
    if b == 0 {
      u, v := 1, 0;
    } else {
      var s, t := Bezout(b, a % b);
      u, v := t, s - t * (a / b);
      assert a == (a / b) * b + a % b;
      BezoutStep(a, b, a / b, a % b, s, t);
    }
  }

  lemma BezoutStep(a: int, b: int, q: int, r: int, s: int, t: int)
    requires a == q * b + r
    ensures t * a + (s - t * q) * b == s * b + t * r
  {
    assert t * a == t * (q * b) + t * r;
    assert (s - t * q) * b == s * b - (t * q) * b;
    assert (t * q) * b == t * (q * b);
  }

  lemma GcdIsOne(p: int, q: nat)
    requires q > 0 && Coprime(p, q)
    ensures Gcd(Abs(p), q) == 1
  {
    GcdDivides(Abs(p), q);
    DividesNeg(Gcd(Abs(p), q), p);
  }

  /** A number that divides a product and shares no factor with one side divides the other. */
  lemma Euclid(q: nat, p: nat, c: int, m: int)
    requires q > 0 && Gcd(p, q) == 1 && p * c == q * m
    ensures exists k: int :: c == q * k
  {
    var u, v := Bezout(p, q);
    SumTimes(u * p, v * q, c);
    Swap(u, p, c);
    Swap(v, q, c);
    Swap(u, q, m);
    Factor(q, u * m, v * c);
    Turn(v, q, c);
    assert c == q * (u * m + v * c);
  }

  lemma SumTimes(a: int, b: int, c: int)
    ensures (a + b) * c == a * c + b * c
  {
  }

  lemma Swap(a: int, b: int, c: int)
    ensures (a * b) * c == a * (b * c) && a * (b * c) == b * (a * c)
  {
  }

  lemma Turn(v: int, q: int, c: int)
    ensures v * (q * c) == q * (v * c)
  {
  }

  lemma Factor(q: int, a: int, b: int)
    ensures q * (a + b) == q * a + q * b
  {
  }

  lemma Antisymmetric(a: nat, b: nat, k: int, l: int)
    requires a > 0 && b > 0 && a == b * k && b == a * l
    ensures a == b
  {
    assert k <= 0 ==> b * k <= 0;
    assert l <= 0 ==> a * l <= 0;
    assert k >= 1 ==> b * k >= b;
    assert l >= 1 ==> a * l >= a;
  }

  lemma CancelFactor(q: nat, p: int, p': int)
    requires q > 0 && p * q == p' * q
    ensures p == p'
  {
    assert (p - p') * q == 0;
    assert p - p' >= 1 ==> (p - p') * q >= q;
    assert p - p' <= -1 ==> (p - p') * q <= 0 - q;
  }

  /** Two fractions in lowest terms with the same value are the same. */
  lemma LowestIsUnique(p: int, q: nat, p': int, q': nat)
    requires q > 0 && q' > 0 && Gcd(Abs(p), q) == 1 && Gcd(Abs(p'), q') == 1 && p * q' == p' * q
    ensures p == p' && q == q'
  {
    AbsCross(p, q', p', q);
    Euclid(q, Abs(p), q', Abs(p'));
    Euclid(q', Abs(p'), q, Abs(p));
    var k: int :| q' == q * k;
    var l: int :| q == q' * l;
    Antisymmetric(q', q, k, l);
    CancelFactor(q, p, p');
  }

  lemma AbsCross(p: int, q': nat, p': int, q: nat)
    requires p * q' == p' * q
    ensures Abs(p) * q' == q * Abs(p') && Abs(p') * q == q' * Abs(p)
  {
    assert Abs(p) * q' == if p < 0 then 0 - p * q' else p * q';
    assert Abs(p') * q == if p' < 0 then 0 - p' * q else p' * q;
    assert q > 0 && p' < 0 ==> p' * q < 0;
    assert q' > 0 && p < 0 ==> p * q' < 0;
    assert p >= 0 ==> p * q' >= 0;
    assert p' >= 0 ==> p' * q >= 0;
  }

  /** Equal fractions have equal cross products. */
  lemma Crossed(p: int, q: nat, p': int, q': nat)
    requires q > 0 && q' > 0 && p as real / q as real == p' as real / q' as real
    ensures p * q' == p' * q
  {
    Whole(p as real, q as real);
    Whole(p' as real, q' as real);
    var z := p as real / q as real;
    CrossedReals(p as real, q as real, p' as real, q' as real, z);
    RealProduct(p, q');
    RealProduct(p', q);
  }

  lemma CrossedReals(a: real, b: real, c: real, d: real, z: real)
    requires a == z * b && c == z * d
    ensures a * d == c * b
  {
    assert (z * b) * d == (z * d) * b;
  }

  /** Reducing gives the one fraction in lowest terms with that value. */
  lemma ReduceIs(m: int, n: int, p: int, q: nat)
    requires n != 0 && q > 0 && Coprime(p, q) && m as real / n as real == p as real / q as real
    ensures Reduce(m, n) == Rat(p, q)
  {
    ReduceIsLowest(m, n);
    ReduceMeans(m, n);
    GcdIsOne(p, q);
    var r := Reduce(m, n);
    Crossed(r.num, r.den, p, q);
    LowestIsUnique(r.num, r.den, p, q);
  }

  // ----- the operations -------------------------------------------------------

  /** The operations that compute with fractions: division, and any with a fraction. */
  predicate OnFractions(x: Value, op: Token, y: Value) {
    op == QUO || x.Rat? || y.Rat?
  }

  function Num(x: Value): int
    requires Exact(x)
  {
    if x.Rat? then x.num else x.n
  }

  function Den(x: Value): int
    requires Exact(x)
  {
    if x.Rat? then x.den else 1
  }

  /** m/n is what the rules for fractions make of a/b and c/d. */
  predicate Combines(a: int, b: int, op: Token, c: int, d: int, m: int, n: int) {
    match op
    case ADD => m == a * d + c * b && n == b * d
    case SUB => m == a * d - c * b && n == b * d
    case MUL => m == a * c && n == b * d
    case _ => m == a * d && n == b * c
  }

  /** The fraction that such an operation reduces. */
  lemma Unreduced(x: Value, op: Token, y: Value) returns (m: int, n: int)
    requires Exact(x) && Exact(y) && FieldOp(op) && OnFractions(x, op, y) && (op == QUO ==> Mean(y) != 0.0)
    ensures n != 0 && BinaryOp(x, op, y) == Ok(MakeRat(Reduce(m, n)))
    ensures m as real / n as real == Field(op, Mean(x), Mean(y))
    ensures Combines(Num(x), Den(x), op, Num(y), Den(y), m, n)
  {
    MatchKeepsMeaning(x, y);
    var (a, b) := Match(x, y);
    if a.Rat? {
      m, n := RatUnreduced(a.num, a.den, op, b.num, b.den);
    } else {
      m, n := a.n, b.n;
    }
  }

  lemma RatUnreduced(a: int, b: int, op: Token, c: int, d: int) returns (m: int, n: int)
    requires b > 0 && d > 0 && FieldOp(op) && (op == QUO ==> c as real / d as real != 0.0)
    ensures n != 0 && RatOp(a, b, op, c, d) == Ok(MakeRat(Reduce(m, n)))
    ensures m as real / n as real == Field(op, a as real / b as real, c as real / d as real)
    ensures Combines(a, b, op, c, d, m, n)
  {
    Positive(b, d);
    match op
    case ADD =>
      SumOf(a, b, c, d);
      m, n := a * d + c * b, b * d;
    case SUB =>
      SumOf(a, b, c, d);
      m, n := a * d - c * b, b * d;
    case MUL =>
      ProductOf(a, b, c, d);
      m, n := a * c, b * d;
    case QUO =>
      if c == 0 { Quotient(c as real, d as real, 0.0); }
      NonZero(b, c);
      QuotientOf(a, b, c, d);
      m, n := a * d, b * c;
  }

  /**
   A sum, difference, product or quotient that is computed with fractions, whose exact value is
   p/q in lowest terms, is the fraction p/q when both terms are below 2^4095 and a floatVal
   otherwise.
   */
  lemma FractionStays(x: Value, op: Token, y: Value, p: int, q: nat, k: nat)
    requires Exact(x) && Exact(y) && FieldOp(op) && OnFractions(x, op, y) && (op == QUO ==> Mean(y) != 0.0)
    requires q > 0 && Coprime(p, q) && Field(op, Mean(x), Mean(y)) == p as real / q as real && k == 4095
    ensures BinaryOp(x, op, y) == Ok(if Abs(p) < Pow2(k) && q < Pow2(k) then Rat(p, q) else Float)
  {
    var m, n := Unreduced(x, op, y);
    ReduceIs(m, n, p, q);
    MakeRatIs(p, q, k);
  }

  /** A sum, difference or product of integers is the integer, whatever its size. */
  lemma IntegerStays(x: Value, op: Token, y: Value)
    requires Exact(x) && Exact(y) && (op == ADD || op == SUB || op == MUL) && !OnFractions(x, op, y)
    ensures BinaryOp(x, op, y) == Ok(MakeInt(if op == ADD then x.n + y.n else if op == SUB then x.n - y.n else x.n * y.n))
  {
    IntegersFold(x, op, y);
  }

  /** The negation of a fraction is a fraction when it is not too long. */
  lemma NegationStays(p: int, q: int, k: nat)
    requires k == 4095
    ensures UnaryOp(SUB, Rat(p, q), 0) == Ok(if Abs(p) < Pow2(k) && Abs(q) < Pow2(k) then Rat(-p, q) else Float)
  {
    MakeRatIs(-p, q, k);
  }

  // ----- numbers that are small enough -----------------------------------------

  lemma {:induction false} Pow2Adds(i: nat, j: nat)
    ensures Pow2(i + j) == Pow2(i) * Pow2(j)
  {
    if i > 0 { Pow2Adds(i - 1, j); }
  }

  lemma Pow2Grows(i: nat, j: nat)
    requires i <= j
    ensures Pow2(i) <= Pow2(j)
  {
    Pow2Adds(j - i, i);
    assert Pow2(j - i) >= 1 && Pow2(i) >= 0;
  }

  /** Both terms are below 2^i. */
  predicate Small(x: Value, i: nat) {
    Exact(x) && Abs(Num(x)) < Pow2(i) && Den(x) < Pow2(i)
  }

  lemma SmallProduct(a: int, b: int, i: nat, j: nat)
    requires Abs(a) < Pow2(i) && Abs(b) < Pow2(j)
    ensures Abs(a * b) < Pow2(i + j)
  {
    Pow2Adds(i, j);
    AbsProduct(a, b);
    ProductBelow(Abs(a), Abs(b), Pow2(i), Pow2(j));
  }

  lemma ProductBelow(x: nat, y: nat, p: nat, q: nat)
    requires x < p && y < q
    ensures x * y < p * q
  {
    Grows(x, p, q);
    assert x * (q - y) >= 0;
    assert x * q == x * y + x * (q - y);
  }

  lemma Grows(x: int, y: int, z: int)
    requires x < y && z > 0
    ensures x * z < y * z
  {
    assert (y - x) * z > 0;
  }

  lemma CombinesSmall(a: int, b: int, op: Token, c: int, d: int, m: int, n: int, i: nat, j: nat)
    requires FieldOp(op) && Combines(a, b, op, c, d, m, n)
    requires Abs(a) < Pow2(i) && Abs(b) < Pow2(i) && Abs(c) < Pow2(j) && Abs(d) < Pow2(j)
    ensures Abs(m) < Pow2(i + j + 1) && Abs(n) < Pow2(i + j + 1)
  {
    SmallProduct(a, d, i, j);
    SmallProduct(b, c, i, j);
    SmallProduct(b, d, i, j);
    SmallProduct(a, c, i, j);
    assert c * b == b * c;
    assert Pow2(i + j + 1) == 2 * Pow2(i + j);
  }

  /** Reducing makes neither term longer. */
  lemma ReduceShortens(m: int, n: int)
    requires n != 0
    ensures Reduce(m, n).Rat? && Abs(Reduce(m, n).num) <= Abs(m) && 0 < Reduce(m, n).den <= Abs(n)
  {
    ReducedDen(m, n);
    var g := Gcd(Abs(m), Abs(n));
    GcdDivides(Abs(m), Abs(n));
    DividesNeg(g, m);
    NegDivide(g, m);
    Shorter(g, Abs(m));
    Shorter(g, Abs(n));
  }

  lemma Shorter(g: nat, n: nat)
    requires Divides(g, n)
    ensures n / g <= n
  {
    NotNegative(g, n / g);
    AtLeast(g, n / g);
  }

  lemma AtLeast(g: int, k: int)
    requires g >= 1 && k >= 0
    ensures g * k >= k
  {
  }

  /** An operation on small numbers gives a small number, and no floatVal. */
  lemma SmallOp(x: Value, op: Token, y: Value, i: nat, j: nat)
    requires Small(x, i) && Small(y, j) && FieldOp(op) && (op == QUO ==> Mean(y) != 0.0) && i + j + 1 <= 4095
    ensures BinaryOp(x, op, y).Ok? && Small(BinaryOp(x, op, y).value, i + j + 1)
  {
    if OnFractions(x, op, y) {
      var m, n := Unreduced(x, op, y);
      CombinesSmall(Num(x), Den(x), op, Num(y), Den(y), m, n, i, j);
      ReduceShortens(m, n);
      StaysRat(Reduce(m, n), i + j + 1, 4095);
    } else {
      IntegerStays(x, op, y);
      var n := if op == ADD then x.n + y.n else if op == SUB then x.n - y.n else x.n * y.n;
      CombinesSmall(x.n, 1, op, y.n, 1, n, 1, i, j);
      MakeIntMeans(n);
    }
  }

  lemma StaysRat(r: Value, i: nat, k: nat)
    requires r.Rat? && r.den > 0 && Abs(r.num) < Pow2(i) && Abs(r.den) < Pow2(i) && i <= k == 4095
    ensures MakeRat(r) == r
  {
    Pow2Grows(i, k);
    MakeRatIs(r.num, r.den, k);
  }

  /** The outcome is the exact result, and small. */
  ghost predicate StaysSmall(o: Outcome<Value>, x: Value, op: Token, y: Value, k: nat)
    requires Exact(x) && Exact(y)
  {
    && FieldOp(op) && (op == QUO ==> Mean(y) != 0.0)
    && o.Ok? && Small(o.value, k) && Mean(o.value) == Field(op, Mean(x), Mean(y))
  }

  ghost predicate SmallSteps(f: (Value, Token, Value) -> Outcome<Value>) {
    forall x, op, y, i: nat, j: nat {:trigger f(x, op, y), Small(x, i), Small(y, j)} ::
      Small(x, i) && Small(y, j) && FieldOp(op) && (op == QUO ==> Mean(y) != 0.0) && i + j + 1 <= 4095 ==>
        StaysSmall(f(x, op, y), x, op, y, i + j + 1)
  }

  lemma RealSmall()
    ensures SmallSteps(RealOp)
  {
    forall x, op, y, i: nat, j: nat | Small(x, i) && Small(y, j) && FieldOp(op) && (op == QUO ==> Mean(y) != 0.0) && i + j + 1 <= 4095
      ensures StaysSmall(RealOp(x, op, y), x, op, y, i + j + 1)
    {
      SmallOp(x, op, y, i, j);
      FieldFolds(x, op, y);
    }
  }

  /** One step inside a complex operation. */
  lemma Step(f: (Value, Token, Value) -> Outcome<Value>, x: Value, op: Token, y: Value, i: nat, j: nat, k: nat) returns (v: Value)
    requires SmallSteps(f) && Small(x, i) && Small(y, j) && FieldOp(op) && (op == QUO ==> Mean(y) != 0.0) && i + j + 1 == k <= 4095
    ensures f(x, op, y) == Ok(v) && Small(v, k) && Mean(v) == Field(op, Mean(x), Mean(y))
  {
    assert StaysSmall(f(x, op, y), x, op, y, i + j + 1);
    v := f(x, op, y).value;
  }

  ghost predicate SmallParts(x: Value, i: nat) {
    if x.Complex? then Small(x.re, i) && Small(x.im, i) else Small(x, i)
  }

  ghost predicate FourSmall(a: Value, b: Value, c: Value, d: Value, i: nat) {
    Small(a, i) && Small(b, i) && Small(c, i) && Small(d, i) && i <= 511
  }

  ghost predicate BothExact(o: Outcome<Value>) {
    o.Ok? && o.value.Complex? && Exact(o.value.re) && Exact(o.value.im)
  }

  lemma SmallProducts(f: (Value, Token, Value) -> Outcome<Value>, a: Value, b: Value, c: Value, d: Value, i: nat)
    requires SmallSteps(f) && FourSmall(a, b, c, d, i)
    ensures BothExact(ComplexOp(f, a, b, MUL, c, d))
  {
    var ac, bd, bc, ad := Numerators(f, a, b, c, d, i);
    var re := Step(f, ac, SUB, bd, 2 * i + 1, 2 * i + 1, 4 * i + 3);
    var im := Step(f, bc, ADD, ad, 2 * i + 1, 2 * i + 1, 4 * i + 3);
    assert ComplexOp(f, a, b, MUL, c, d) == Ok(Complex(re, im));
  }

  lemma SmallQuotients(f: (Value, Token, Value) -> Outcome<Value>, a: Value, b: Value, c: Value, d: Value, i: nat)
    requires SmallSteps(f) && FourSmall(a, b, c, d, i) && (Mean(c) != 0.0 || Mean(d) != 0.0)
    ensures BothExact(ComplexOp(f, a, b, QUO, c, d))
  {
    var ac, bd, bc, ad := Numerators(f, a, b, c, d, i);
    var s := Norm(f, c, d, i);
    var p, q := Sums(f, ac, bd, bc, ad, i);
    var re, im := Quotients(f, p, q, s, i);
    QuotientSteps(f, a, b, c, d, ac, bd, bc, ad, p, q, s, re, im);
  }

  lemma Numerators(f: (Value, Token, Value) -> Outcome<Value>, a: Value, b: Value, c: Value, d: Value, i: nat)
    returns (ac: Value, bd: Value, bc: Value, ad: Value)
    requires SmallSteps(f) && FourSmall(a, b, c, d, i)
    ensures f(a, MUL, c) == Ok(ac) && f(b, MUL, d) == Ok(bd) && f(b, MUL, c) == Ok(bc) && f(a, MUL, d) == Ok(ad)
    ensures Small(ac, 2 * i + 1) && Small(bd, 2 * i + 1) && Small(bc, 2 * i + 1) && Small(ad, 2 * i + 1)
  {
    ac := Step(f, a, MUL, c, i, i, 2 * i + 1);
    bd := Step(f, b, MUL, d, i, i, 2 * i + 1);
    bc := Step(f, b, MUL, c, i, i, 2 * i + 1);
    ad := Step(f, a, MUL, d, i, i, 2 * i + 1);
  }

  lemma Sums(f: (Value, Token, Value) -> Outcome<Value>, ac: Value, bd: Value, bc: Value, ad: Value, i: nat) returns (p: Value, q: Value)
    requires SmallSteps(f) && i <= 511
    requires Small(ac, 2 * i + 1) && Small(bd, 2 * i + 1) && Small(bc, 2 * i + 1) && Small(ad, 2 * i + 1)
    ensures f(ac, ADD, bd) == Ok(p) && f(bc, SUB, ad) == Ok(q) && Small(p, 4 * i + 3) && Small(q, 4 * i + 3)
  {
    p := Step(f, ac, ADD, bd, 2 * i + 1, 2 * i + 1, 4 * i + 3);
    q := Step(f, bc, SUB, ad, 2 * i + 1, 2 * i + 1, 4 * i + 3);
  }

  lemma Quotients(f: (Value, Token, Value) -> Outcome<Value>, p: Value, q: Value, s: Value, i: nat) returns (re: Value, im: Value)
    requires SmallSteps(f) && i <= 511 && Small(p, 4 * i + 3) && Small(q, 4 * i + 3) && Small(s, 4 * i + 3) && Mean(s) != 0.0
    ensures f(p, QUO, s) == Ok(re) && f(q, QUO, s) == Ok(im) && Exact(re) && Exact(im)
  {
    re := Step(f, p, QUO, s, 4 * i + 3, 4 * i + 3, 8 * i + 7);
    im := Step(f, q, QUO, s, 4 * i + 3, 4 * i + 3, 8 * i + 7);
  }

  lemma QuotientSteps(f: (Value, Token, Value) -> Outcome<Value>, a: Value, b: Value, c: Value, d: Value,
                      ac: Value, bd: Value, bc: Value, ad: Value, p: Value, q: Value, s: Value, re: Value, im: Value)
    requires f(a, MUL, c) == Ok(ac) && f(b, MUL, d) == Ok(bd) && f(b, MUL, c) == Ok(bc) && f(a, MUL, d) == Ok(ad)
    requires f(c, MUL, c).Ok? && f(d, MUL, d).Ok? && f(f(c, MUL, c).value, ADD, f(d, MUL, d).value) == Ok(s)
    requires f(ac, ADD, bd) == Ok(p) && f(bc, SUB, ad) == Ok(q) && f(p, QUO, s) == Ok(re) && f(q, QUO, s) == Ok(im)
    ensures ComplexOp(f, a, b, QUO, c, d) == Ok(Complex(re, im))
  {
  }

  lemma Norm(f: (Value, Token, Value) -> Outcome<Value>, c: Value, d: Value, i: nat) returns (s: Value)
    requires SmallSteps(f) && Small(c, i) && Small(d, i) && i <= 511 && (Mean(c) != 0.0 || Mean(d) != 0.0)
    ensures f(c, MUL, c).Ok? && f(d, MUL, d).Ok? && f(f(c, MUL, c).value, ADD, f(d, MUL, d).value) == Ok(s)
    ensures Small(s, 4 * i + 3) && Mean(s) != 0.0
  {
    var cc := Step(f, c, MUL, c, i, i, 2 * i + 1);
    var dd := Step(f, d, MUL, d, i, i, 2 * i + 1);
    s := Step(f, cc, ADD, dd, 2 * i + 1, 2 * i + 1, 4 * i + 3);
    NormNotZero(Mean(c), Mean(d), Mean(cc), Mean(dd));
  }

  lemma NormNotZero(u: real, v: real, uu: real, vv: real)
    requires (u != 0.0 || v != 0.0) && uu == Field(MUL, u, u) && vv == Field(MUL, v, v)
    ensures Field(ADD, uu, vv) != 0.0
  {
    NormIsZero(u, v);
  }

  lemma SmallSums(f: (Value, Token, Value) -> Outcome<Value>, a: Value, b: Value, op: Token, c: Value, d: Value, i: nat)
    requires SmallSteps(f) && FourSmall(a, b, c, d, i) && (op == ADD || op == SUB)
    ensures BothExact(ComplexOp(f, a, b, op, c, d))
  {
    var re := Step(f, a, op, c, i, i, 2 * i + 1);
    var im := Step(f, b, op, d, i, i, 2 * i + 1);
    assert ComplexOp(f, a, b, op, c, d) == Ok(Complex(re, im));
  }

  /** A complex operation works on the parts by an operation that keeps small numbers exact. */
  lemma SmallMatch(x: Value, op: Token, y: Value, i: nat)
    returns (f: (Value, Token, Value) -> Outcome<Value>, a: Value, b: Value, c: Value, d: Value)
    requires SmallParts(x, i) && SmallParts(y, i) && 1 <= i <= 511 && (x.Complex? || y.Complex?)
    ensures BinaryOp(x, op, y) == ComplexOp(f, a, b, op, c, d) && SmallSteps(f) && FourSmall(a, b, c, d, i)
    ensures ExactParts(y) && Mean(c) == Re(y) && Mean(d) == Im(y)
  {
    RealSmall();
    ZeroIsSmall(i);
    f := RealOp;
    a, b := if x.Complex? then x.re else x, if x.Complex? then x.im else Int64(0);
    c, d := if y.Complex? then y.re else y, if y.Complex? then y.im else Int64(0);
  }

  /**
   Complex operations on operands whose parts have terms below 2^511 give no floatVal, so
   what they give is exact in both parts.
   */
  lemma SmallComplexStays(x: Value, op: Token, y: Value, i: nat)
    requires SmallParts(x, i) && SmallParts(y, i) && 1 <= i <= 511 && (x.Complex? || y.Complex?) && FieldOp(op)
    requires op == QUO ==> ExactParts(y) && (Re(y) != 0.0 || Im(y) != 0.0)
    ensures var o := BinaryOp(x, op, y); o.Ok? && o.value.Complex? && Exact(o.value.re) && Exact(o.value.im)
  {
    var f, a, b, c, d := SmallMatch(x, op, y, i);
    match op
    case MUL => SmallProducts(f, a, b, c, d, i);
    case QUO => SmallQuotients(f, a, b, c, d, i);
    case _ => SmallSums(f, a, b, op, c, d, i);
  }

  lemma ZeroIsSmall(i: nat)
    requires i >= 1
    ensures Small(Int64(0), i) && Mean(Int64(0)) == 0.0
  {
    Pow2Grows(1, i);
    assert Pow2(1) == 2 * Pow2(0);
  }

  // ----- truth values ------------------------------------------------------------

  /** Operations on truth values are those of the truth tables; all others panic. */
  lemma BoolFolds(p: bool, op: Token, q: bool, prec: nat)
    ensures op == LAND ==> BinaryOp(Bool(p), op, Bool(q)) == Ok(Bool(p && q))
    ensures op == LOR ==> BinaryOp(Bool(p), op, Bool(q)) == Ok(Bool(p || q))
    ensures op != LAND && op != LOR ==> BinaryOp(Bool(p), op, Bool(q)) == Panic
    ensures op == EQL ==> Compare(Bool(p), op, Bool(q)) == Ok(p == q)
    ensures op == NEQ ==> Compare(Bool(p), op, Bool(q)) == Ok(p != q)
    ensures op != EQL && op != NEQ ==> Compare(Bool(p), op, Bool(q)) == Panic
    ensures op == NOT ==> UnaryOp(op, Bool(p), prec) == Ok(Bool(!p))
    ensures op != NOT ==> UnaryOp(op, Bool(p), prec) == Panic
  {
  }

  /** An unknown operand makes the result unknown and every comparison false; truth values and numbers do not mix. */
  lemma KindsFold(x: Value, op: Token, y: Value)
    requires Flat(x) && Flat(y) && NoFloat(x) && NoFloat(y)
    ensures x.Unknown? || y.Unknown? ==> BinaryOp(x, op, y) == Ok(Unknown) && Compare(x, op, y) == Ok(false)
    ensures x.Bool? && (Exact(y) || y.Complex?) ==> BinaryOp(x, op, y) == Panic && Compare(x, op, y) == Panic
    ensures y.Bool? && (Exact(x) || x.Complex?) ==> BinaryOp(x, op, y) == Panic && Compare(x, op, y) == Panic
  {
  }
}
