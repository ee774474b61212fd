/**
 * The search values of the engine: Python floats as the search uses them,
 * that is finite numbers and the two sentinels `math.inf` and `-math.inf`.
 * Finite values are exact reals: floating-point rounding is not modelled.
 */
module Extended {

  datatype Ext = NegInf | Fin(v: real) | PosInf

  /** Python's `<=` on floats, infinities included. */
  predicate Le(a: Ext, b: Ext) {
    match (a, b)
    case (NegInf, _) => true
    case (_, PosInf) => true
    case (Fin(x), Fin(y)) => x <= y
    case _ => false
  }

  /** Python's `<` on floats, infinities included. */
  predicate Lt(a: Ext, b: Ext) {
    Le(a, b) && a != b
  }

  /** An integer score (an evaluator result) as a search value. */
  function FromInt(n: int): Ext {
    Fin(n as real)
  }

  /** Python's `max(a, b)`: the first argument unless the second is strictly greater. */
  function Max(a: Ext, b: Ext): (r: Ext)
    ensures Le(a, r) && Le(b, r)
    ensures r == a || r == b
    ensures Lt(a, b) ==> r == b
  {
    if Lt(a, b) then b else a
  }

  /** Python's `min(a, b)`: the first argument unless the second is strictly smaller. */
  function Min(a: Ext, b: Ext): (r: Ext)
    ensures Le(r, a) && Le(r, b)
    ensures r == a || r == b
    ensures Lt(b, a) ==> r == b
  {
    if Lt(b, a) then b else a
  }

  /** Pairs whose float sum is a number or an infinity, not NaN. */
  predicate Summable(a: Ext, b: Ext) {
    !(a == NegInf && b == PosInf) && !(a == PosInf && b == NegInf)
  }

  /** Python's `+` on floats, for pairs that do not produce NaN. */
  function Add(a: Ext, b: Ext): (r: Ext)
    requires Summable(a, b)
    ensures r == NegInf <==> a == NegInf || b == NegInf
    ensures r == PosInf <==> a == PosInf || b == PosInf
  {
    match (a, b)
    case (Fin(x), Fin(y)) => Fin(x + y)
    case (NegInf, _) => NegInf
    case (_, NegInf) => NegInf
    case _ => PosInf
  }

  /** Python's `k * a` for a positive factor `k`. */
  function Scale(k: real, a: Ext): (r: Ext)
    requires k > 0.0
    ensures r.NegInf? <==> a.NegInf?
    ensures r.PosInf? <==> a.PosInf?
  {
    match a
    case Fin(x) => Fin(k * x)
    case _ => a
  }

  /** `Le` is a total order on search values. */
  lemma LeTotalOrder(a: Ext, b: Ext, c: Ext)
    ensures Le(a, a)
    ensures Le(a, b) && Le(b, a) ==> a == b
    ensures Le(a, b) && Le(b, c) ==> Le(a, c)
    ensures Le(a, b) || Le(b, a)
    ensures !Lt(a, b) <==> Le(b, a)
  {
  }

  /** Scaling distributes over a sum, as exact arithmetic promises. */
  lemma ScaleAdd(k: real, a: Ext, b: Ext)
    requires k > 0.0 && Summable(a, b)
    ensures Summable(Scale(k, a), Scale(k, b))
    ensures Scale(k, Add(a, b)) == Add(Scale(k, a), Scale(k, b))
  {
    match (a, b)
    case (Fin(x), Fin(y)) =>
      assert k * (x + y) == k * x + k * y;
    case _ =>
  }

  /** `max` is associative on values. */
  lemma MaxAssoc(a: Ext, b: Ext, c: Ext)
    ensures Max(Max(a, b), c) == Max(a, Max(b, c))
  {
  }

  /** Sums of values that are never `math.inf` may be regrouped. */
  lemma AddAssoc(a: Ext, b: Ext, c: Ext)
    requires a != PosInf && b != PosInf && c != PosInf
    ensures Add(Add(a, b), c) == Add(a, Add(b, c))
  {
  }

  lemma AddZero(a: Ext)
    ensures Add(a, Fin(0.0)) == a && Add(Fin(0.0), a) == a
  {
  }

  /** Python's `1/n`, the weight of one of `n` equally likely outcomes. */
  function Share(n: nat): (k: real)
    requires n > 0
    ensures k > 0.0
  {
    1.0 / (n as real)
  }

  /** `x` added up `n` times. */
  function Times(n: nat, x: real): real {
    if n == 0 then 0.0 else x + Times(n - 1, x)
  }

  lemma {:induction false} TimesIsProduct(n: nat, x: real)
    ensures Times(n, x) == (n as real) * x
  {
    if n > 0 {
      TimesIsProduct(n - 1, x);
    }
  }

  /** The float sum of a sequence of values, none of them `math.inf`, from the left, starting at 0. */
  function Sum(vs: seq<Ext>): (r: Ext)
    requires forall i :: 0 <= i < |vs| ==> vs[i] != PosInf
    ensures r != PosInf
  {
    if |vs| == 0 then Fin(0.0) else Add(vs[0], Sum(vs[1..]))
  }

  /** A sum of `n` values all worth `x` is `x` added `n` times. */
  lemma {:induction false} SumUniform(vs: seq<Ext>, x: real)
    requires forall i :: 0 <= i < |vs| ==> vs[i] == Fin(x)
    ensures Sum(vs) == Fin(Times(|vs|, x))
  {
    if |vs| > 0 {
      SumUniform(vs[1..], x);
    }
  }

  lemma ShareInverse(n: nat)
    requires n > 0
    ensures Share(n) * (n as real) == 1.0
  {
  }

  lemma MulAssoc(a: real, b: real, c: real)
    ensures a * (b * c) == (a * b) * c
  {
  }

  /**
   * `m` outcomes worth `x` each, weighted `1/n` each: `n` times that is `m`
   * times `x`, so it is `x` itself when `m == n` and differs from `x` when
   * `m < n` and `x != 0`.
   */
  lemma ShareOfTimes(n: nat, m: nat, x: real)
    requires n > 0
    ensures Scale(Share(n), Fin(Times(m, x))).Fin?
    ensures (n as real) * Scale(Share(n), Fin(Times(m, x))).v == (m as real) * x
    ensures Scale(Share(n), Fin(Times(n, x))) == Fin(x)
    ensures m < n && x != 0.0 ==> Scale(Share(n), Fin(Times(m, x))) != Fin(x)
  {
    TimesIsProduct(m, x);
    TimesIsProduct(n, x);
    ShareInverse(n);
    var k := Share(n);
    MulAssoc(k, m as real, x);
    MulAssoc(k, n as real, x);
    MulAssoc(n as real, k, (m as real) * x);
  }
}
