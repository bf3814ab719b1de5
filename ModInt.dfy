/**
  Integers modulo a positive modulus `m` (the `Modular` trait and
  `ModInt<M>`).  The narrow integer type `M::I` and the wide type `M::II`
  are both modelled as `int`; `convert` is the identity on the values it is
  applied to, which after the `%` always lie strictly between `-m` and `m`.

  Rust's `%` truncates toward zero, so its remainder takes the sign of the
  dividend; `TruncRem` writes that out, since Dafny's `%` is Euclidean.
*/
module ModInt {

  /** Rust's `a % m` for `m > 0`: the remainder has the sign of `a`. */
  function TruncRem(a: int, m: int): (r: int)
    requires m > 0
    ensures -m < r < m
    ensures a >= 0 ==> r >= 0
    ensures a < 0 ==> r <= 0
  {
    if a >= 0 then a % m else -((-a) % m)
  }

  /** Euclidean remainder characterised by any quotient/remainder split. */
  lemma ModUnique(a: int, m: int, k: int, r: int)
    requires m > 0 && 0 <= r < m
    requires a == k * m + r
    ensures a % m == r
  {
    var q := a / m;
    assert a == q * m + a % m;
    var d := k - q;
    assert d * m == a % m - r;
    MulBound(d, m);
  }

  lemma MulBound(d: int, m: int)
    requires m > 0
    ensures d >= 1 ==> d * m >= m
    ensures d <= -1 ==> d * m <= -m
  {
    assert d * m == (d - 1) * m + m;
    assert d * m == (d + 1) * m - m;
  }

  /** The truncating remainder, made non-negative, is the Euclidean one. */
  lemma TruncRemAdjusted(a: int, m: int)
    requires m > 0
    ensures (if TruncRem(a, m) < 0 then TruncRem(a, m) + m else TruncRem(a, m)) == a % m
  {
    if a < 0 {
      var t := (-a) % m;
      var q := (-a) / m;
      assert -a == q * m + t;
      if t == 0 {
        ModUnique(a, m, -q, 0);
      } else {
        ModUnique(a, m, -q - 1, m - t);
      }
    }
  }

  /** `take_modulo`: remainder, then add `m` when it is negative. */
  function TakeModulo(value: int, m: int): (r: int)
    requires m > 0
    ensures 0 <= r < m
    ensures r == value % m
  {
    TruncRemAdjusted(value, m);
    var v := TruncRem(value, m);
    if v < 0 then v + m else v
  }

  /** `take_modulo_larger`: the same on the wide type, narrowed by `convert`. */
  function TakeModuloLarger(value: int, m: int): (r: int)
    requires m > 0
    ensures 0 <= r < m
  {
    var v := Convert(TruncRem(value, m));
    if v < 0 then v + m else v
  }

  /** `convert`: narrowing from the wide type; identity on the values it sees. */
  function Convert(ii: int): int { ii }

  /** Both reductions agree on every input. */
  lemma TakeModuloLargerAgrees(value: int, m: int)
    requires m > 0
    ensures TakeModuloLarger(value, m) == TakeModulo(value, m)
    ensures TakeModuloLarger(value, m) == value % m
  {
  }

  datatype ModInt = ModInt(value: int)

  /** The representation invariant `0 <= value < m` that the operations keep. */
  predicate Normal(a: ModInt, m: int) { 0 <= a.value < m }

  /** `ModInt::from`. */
  function From(v: int, m: int): (r: ModInt)
    requires m > 0
    ensures Normal(r, m)
    ensures r.value == v % m
  {
    ModInt(TakeModulo(v, m))
  }

  /** `ModInt::from_large`. */
  function FromLarge(v: int, m: int): (r: ModInt)
    requires m > 0
    ensures Normal(r, m)
    ensures r.value == v % m
  {
    TakeModuloLargerAgrees(v, m);
    ModInt(TakeModuloLarger(v, m))
  }

  /** `Zero::zero`. */
  function Zero(): ModInt { ModInt(0) }

  /** `One::one` exactly as written: the raw value 1, whatever the modulus. */
  function OneAsWritten(): ModInt { ModInt(1) }

  /** For the modulus 1 the value written by `one()` is not reduced. */
  lemma OneAsWrittenNotNormal()
    ensures !Normal(OneAsWritten(), 1)
    ensures OneAsWritten() != From(1, 1)
  {
  }

  /** `One::one`, reduced: the multiplicative unit for every modulus. */
  function One(m: int): (r: ModInt)
    requires m > 0
    ensures Normal(r, m)
    ensures r.value == 1 % m
    ensures m > 1 ==> r == OneAsWritten()
  {
    From(1, m)
  }

  /** `Neg::neg`: zero stays zero, any other value `v` becomes `m - v`. */
  function Neg(a: ModInt, m: int): (r: ModInt)
    requires m > 0
    ensures Normal(a, m) ==> Normal(r, m) && (a.value + r.value) % m == 0
    ensures Normal(a, m) ==> Add(a, r, m) == Zero()
  {
    if a.value == 0 then a else ModInt(m - a.value)
  }

  /** `Add::add`: one conditional subtraction of `m`. */
  function Add(a: ModInt, b: ModInt, m: int): (r: ModInt)
    requires m > 0
    ensures Normal(a, m) && Normal(b, m) ==> Normal(r, m) && r.value == (a.value + b.value) % m
  {
    var tmp := a.value + b.value;
    ModInt(if tmp >= m then tmp - m else tmp)
  }

  lemma ModOfProduct(x: int, y: int, m: int)
    requires m > 0
    ensures ((x % m) * y) % m == (x * y) % m
  {
    var q := x / m;
    var r := x % m;
    assert x == q * m + r;
    assert x * y == (q * y) * m + r * y by {
      assert x * y == (q * m + r) * y;
    }
    ModAddMultiple(r * y, q * y, m);
  }

  lemma ModAddMultiple(a: int, k: int, m: int)
    requires m > 0
    ensures (k * m + a) % m == a % m
  {
    var q := a / m;
    var r := a % m;
    assert a == q * m + r;
    assert k * m + a == (k + q) * m + r;
    ModUnique(k * m + a, m, k + q, r);
  }

  lemma ReduceThenMultiply(a: int, b: int, p: int, m: int)
    requires m > 0
    ensures (((a * b) % m) * p) % m == (a * (b * p)) % m
  {
    ModOfProduct(a * b, p, m);
    assert (a * b) * p == a * (b * p);
  }

  /** `Mul::mul`: the product is taken in the wide type, then reduced. */
  function Mul(a: ModInt, b: ModInt, m: int): (r: ModInt)
    requires m > 0
    ensures Normal(r, m)
    ensures r.value == (a.value * b.value) % m
  {
    TakeModuloLargerAgrees(a.value * b.value, m);
    ModInt(TakeModuloLarger(a.value * b.value, m))
  }

  /** `MulAssign::mul_assign`: replaces the left operand by the product. */
  function MulAssign(a: ModInt, b: ModInt, m: int): (r: ModInt)
    requires m > 0
    ensures Normal(r, m)
    ensures r.value == (a.value * b.value) % m
  {
    Mul(a, b, m)
  }

  /** Product of the raw values of a sequence. */
  function IntProduct(s: seq<ModInt>): int
  {
    if s == [] then 1 else s[0].value * IntProduct(s[1..])
  }

  /** `iter.fold(acc, Self::mul)`. */
  function FoldMul(acc: ModInt, s: seq<ModInt>, m: int): ModInt
    requires m > 0
    decreases s
  {
    if s == [] then acc else FoldMul(Mul(acc, s[0], m), s[1..], m)
  }

  /**
    `Product::product`: fold `mul` from the unit.  The fold starts at the
    corrected `One(m)`, not at the raw `one()` (see `OneAsWrittenNotNormal`),
    so at modulus 1 the empty product is 0 here where the source gives 1.
  */
  function Product(s: seq<ModInt>, m: int): ModInt
    requires m > 0
  {
    FoldMul(One(m), s, m)
  }

  lemma {:induction false} FoldMulValue(acc: ModInt, s: seq<ModInt>, m: int)
    requires m > 0
    requires Normal(acc, m)
    ensures Normal(FoldMul(acc, s, m), m)
    ensures FoldMul(acc, s, m).value == (acc.value * IntProduct(s)) % m
    decreases s
  {
    if s == [] {
    } else {
      var next := Mul(acc, s[0], m);
      FoldMulValue(next, s[1..], m);
      ReduceThenMultiply(acc.value, s[0].value, IntProduct(s[1..]), m);
    }
  }

  /** The product of a sequence is the product of its values, reduced. */
  lemma ProductValue(s: seq<ModInt>, m: int)
    requires m > 0
    ensures Normal(Product(s, m), m)
    ensures Product(s, m).value == IntProduct(s) % m
  {
    FoldMulValue(One(m), s, m);
    ModOfProduct(1, IntProduct(s), m);
  }

  /** The unit test: `3 * 2` is `1` modulo 5. */
  lemma ThreeTimesTwoModFive()
    ensures Mul(From(3, 5), From(2, 5), 5).value == 1
  {
  }
}
