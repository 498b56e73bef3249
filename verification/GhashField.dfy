/**
 * The field GF(2^128) of GHASH, as section 6.3 of NIST SP 800-38D defines it:
 * an element is a string of 128 bits whose first bit is the coefficient of P^0.
 */
module GhashField {
  import opened Bytes

  function Repeat(b: bool, n: nat): (r: seq<bool>)
    ensures |r| == n && forall i :: 0 <= i < n ==> r[i] == b
  {
    seq(n, _ => b)
  }

  type Elem = s: seq<bool> | |s| == 128 witness Repeat(false, 128)

  const ZERO: Elem := Repeat(false, 128)

  /** The field's one: the first bit set. */
  const ONE: Elem := Unit(0)

  /** R, the string 11100001 followed by 120 zero bits. */
  const REDUCTION: Elem := ReductionBits(128)

  function ReductionBits(n: nat): (r: seq<bool>)
    ensures |r| == n && forall i :: 0 <= i < n ==> r[i] == (i == 0 || i == 1 || i == 2 || i == 7)
  {
    seq(n, i => i == 0 || i == 1 || i == 2 || i == 7)
  }

  /** Addition of the field: exclusive or. */
  function Add(a: Elem, b: Elem): (r: Elem)
    ensures forall i :: 0 <= i < 128 ==> r[i] == (a[i] != b[i])
  {
    seq(128, i requires 0 <= i < 128 => a[i] != b[i])
  }

  function Shift(v: Elem): Elem {
    seq(128, i requires 0 <= i < 128 => i > 0 && v[i - 1])
  }

  /** Multiplication by P: shift right, and reduce when a set bit falls out. */
  function TimesP(v: Elem): Elem {
    if v[127] then Add(Shift(v), REDUCTION) else Shift(v)
  }

  function TimesPTo(v: Elem, n: nat): Elem
    decreases n
  {
    if n == 0 then v else TimesPTo(TimesP(v), n - 1)
  }

  /**
   * Steps 2 and 3 of algorithm 1 of section 6.3 of NIST SP 800-38D: `bits` are the
   * bits of X still to be read, `z` and `v` the running Z and V.
   */
  function ProductSteps(bits: seq<bool>, z: Elem, v: Elem): Elem {
    if bits == [] then z
    else ProductSteps(bits[1..], if bits[0] then Add(z, v) else z, TimesP(v))
  }

  /** The product X . Y of section 6.3 of NIST SP 800-38D. */
  function Product(x: Elem, y: Elem): Elem {
    ProductSteps(x, ZERO, y)
  }

  /** The sum of P^i * v over the set bits i: multiplication by a bit string of any length. */
  function Dot(bits: seq<bool>, v: Elem): Elem {
    if bits == [] then ZERO else Add(Pick(bits[0], v), Dot(bits[1..], TimesP(v)))
  }

  function Pick(b: bool, v: Elem): Elem {
    if b then v else ZERO
  }

  // ---------------------------------------------------------------- addition

  lemma AddComm(a: Elem, b: Elem)
    ensures Add(a, b) == Add(b, a)
  {
    assert forall i :: 0 <= i < 128 ==> Add(a, b)[i] == Add(b, a)[i];
  }

  lemma AddZero(a: Elem)
    ensures Add(a, ZERO) == a && Add(ZERO, a) == a
  {
  }

  lemma AddSelf(a: Elem)
    ensures Add(a, a) == ZERO
  {
  }

  lemma AddAssoc(a: Elem, b: Elem, c: Elem)
    ensures Add(Add(a, b), c) == Add(a, Add(b, c))
  {
  }

  lemma AddShuffle(a: Elem, b: Elem, c: Elem, d: Elem)
    ensures Add(Add(a, b), Add(c, d)) == Add(Add(a, c), Add(b, d))
  {
  }

  // ------------------------------------------------------------- bilinearity

  lemma TimesPLinear(a: Elem, b: Elem)
    ensures TimesP(Add(a, b)) == Add(TimesP(a), TimesP(b))
  {
    var l, r := TimesP(Add(a, b)), Add(TimesP(a), TimesP(b));
    assert forall i :: 0 <= i < 128 ==> l[i] == r[i];
  }

  lemma TimesPZero()
    ensures TimesP(ZERO) == ZERO
  {
    assert Shift(ZERO) == ZERO;
  }

  lemma {:induction false} DotZero(bits: seq<bool>)
    ensures Dot(bits, ZERO) == ZERO
  {
    hide Add, TimesP;
    if bits != [] {
      TimesPZero();
      DotZero(bits[1..]);
      AddZero(ZERO);
    }
  }

  lemma {:induction false} DotLinear(bits: seq<bool>, a: Elem, b: Elem)
    ensures Dot(bits, Add(a, b)) == Add(Dot(bits, a), Dot(bits, b))
  {
    hide Add, TimesP;
    if bits == [] {
      AddZero(ZERO);
    } else {
      var r := bits[1..];
      TimesPLinear(a, b);
      DotLinear(r, TimesP(a), TimesP(b));
      AddShuffle(Pick(bits[0], a), Dot(r, TimesP(a)), Pick(bits[0], b), Dot(r, TimesP(b)));
      AddZero(ZERO);
    }
  }

  /** Horner's rule: P can be taken out of a product. */
  lemma {:induction false} DotTimesP(bits: seq<bool>, v: Elem)
    ensures Dot(bits, TimesP(v)) == TimesP(Dot(bits, v))
  {
    hide Add, TimesP;
    TimesPZero();
    if bits != [] {
      DotTimesP(bits[1..], TimesP(v));
      TimesPLinear(Pick(bits[0], v), Dot(bits[1..], TimesP(v)));
    }
  }

  /** Products with bit strings commute: bilinearity alone gives it, without a basis. */
  lemma {:induction false} DotCommutes(xs: seq<bool>, ys: seq<bool>, u: Elem)
    ensures Dot(xs, Dot(ys, u)) == Dot(ys, Dot(xs, u))
  {
    hide Add, TimesP;
    DotZero(ys);
    if xs != [] {
      DotTimesP(ys, u);
      DotCommutes(xs[1..], ys, TimesP(u));
      DotLinear(ys, Pick(xs[0], u), Dot(xs[1..], TimesP(u)));
    }
  }

  lemma {:induction false} StepsAreDot(bits: seq<bool>, z: Elem, v: Elem)
    ensures ProductSteps(bits, z, v) == Add(z, Dot(bits, v))
  {
    hide Add, TimesP;
    AddZero(z);
    if bits != [] {
      StepsAreDot(bits[1..], if bits[0] then Add(z, v) else z, TimesP(v));
      AddAssoc(z, Pick(bits[0], v), Dot(bits[1..], TimesP(v)));
    }
  }

  /** Horner's rule for a string in two parts. */
  lemma {:induction false} DotAppend(a: seq<bool>, b: seq<bool>, v: Elem)
    ensures Dot(a + b, v) == Add(Dot(a, v), TimesPTo(Dot(b, v), |a|))
  {
    hide Add, TimesP;
    AddZero(Dot(b, v));
    if a == [] {
      assert a + b == b;
    } else {
      assert (a + b)[1..] == a[1..] + b;
      DotAppend(a[1..], b, TimesP(v));
      DotTimesP(b, v);
      AddAssoc(Pick(a[0], v), Dot(a[1..], TimesP(v)), TimesPTo(Dot(b, v), |a|));
    }
  }

  /** Products are linear in the bit string too. */
  lemma {:induction false} DotBitsLinear(a: seq<bool>, b: seq<bool>, c: seq<bool>, v: Elem)
    requires |a| == |b| == |c| && forall i :: 0 <= i < |a| ==> c[i] == (a[i] != b[i])
    ensures Dot(c, v) == Add(Dot(a, v), Dot(b, v))
  {
    hide Add, TimesP;
    AddZero(ZERO);
    if a != [] {
      DotBitsLinear(a[1..], b[1..], c[1..], TimesP(v));
      var p, q := Pick(a[0], v), Pick(b[0], v);
      AddZero(v);
      AddSelf(v);
      AddShuffle(p, q, Dot(a[1..], TimesP(v)), Dot(b[1..], TimesP(v)));
    }
  }

  // ---------------------------------------------------- the unit, and the law

  function Unit(k: nat): Elem
    requires k < 128
  {
    seq(128, i => i == k)
  }

  lemma TimesPUnit(k: nat)
    requires k < 127
    ensures TimesP(Unit(k)) == Unit(k + 1)
  {
    assert Shift(Unit(k)) == Unit(k + 1);
  }

  lemma PlaceBit(y: Elem, k: nat)
    requires k < 128
    ensures Add(Pick(y[k], Unit(k)), Repeat(false, k + 1) + y[k + 1..]) == Repeat(false, k) + y[k..]
  {
    var l, r := Add(Pick(y[k], Unit(k)), Repeat(false, k + 1) + y[k + 1..]), Repeat(false, k) + y[k..];
    assert forall i :: 0 <= i < 128 ==> l[i] == r[i];
  }

  /** The bits of y from position k on, read from P^k, put those bits back in place. */
  lemma {:induction false} DotUnit(y: Elem, k: nat)
    requires k < 128
    ensures Dot(y[k..], Unit(k)) == Repeat(false, k) + y[k..]
    decreases 128 - k
  {
    assert y[k..][1..] == y[k + 1..];
    PlaceBit(y, k);
    if k < 127 {
      TimesPUnit(k);
      DotUnit(y, k + 1);
    } else {
      assert ZERO == Repeat(false, 128) + y[128..];
    }
  }

  lemma DotOne(y: Elem)
    ensures Dot(y, ONE) == y
  {
    assert y[0..] == y == Repeat(false, 0) + y[0..];
    DotUnit(y, 0);
  }

  lemma ProductIsDot(x: Elem, y: Elem)
    ensures Product(x, y) == Dot(x, y)
  {
    StepsAreDot(x, ZERO, y);
    AddZero(Dot(x, y));
  }

  /** And associative, again from bilinearity alone. */
  lemma ProductAssoc(x: Elem, y: Elem, z: Elem)
    ensures Product(Product(x, y), z) == Product(x, Product(y, z))
  {
    hide Product, Dot;
    ProductCommutes(Product(x, y), z);
    ProductCommutes(y, z);
    ProductIsDot(z, Product(x, y));
    ProductIsDot(x, y);
    ProductIsDot(x, Product(z, y));
    ProductIsDot(z, y);
    DotCommutes(x, z, y);
  }

  /** Products distribute over sums on the left. */
  lemma ProductSum(x: Elem, y: Elem, z: Elem)
    ensures Product(Add(x, y), z) == Add(Product(x, z), Product(y, z))
  {
    hide Product, Dot, Add;
    ProductCommutes(Add(x, y), z);
    ProductCommutes(x, z);
    ProductCommutes(y, z);
    ProductIsDot(z, Add(x, y));
    ProductIsDot(z, x);
    ProductIsDot(z, y);
    DotLinear(z, x, y);
  }

  lemma ProductZero(z: Elem)
    ensures Product(ZERO, z) == ZERO
  {
    hide Product, Dot;
    ProductCommutes(ZERO, z);
    ProductIsDot(z, ZERO);
    DotZero(z);
  }

  lemma {:induction false} DotTimesPTo(bits: seq<bool>, v: Elem, n: nat)
    ensures Dot(bits, TimesPTo(v, n)) == TimesPTo(Dot(bits, v), n)
    decreases n
  {
    hide TimesP, Dot;
    if n > 0 {
      DotTimesPTo(bits, TimesP(v), n - 1);
      DotTimesP(bits, v);
    }
  }

  lemma {:induction false} UnitTimesPTo(i: nat, n: nat)
    requires i < 128 && i + n <= 128
    ensures TimesPTo(Unit(i), n) == if i + n < 128 then Unit(i + n) else REDUCTION
    decreases n
  {
    hide TimesP;
    if n > 0 {
      if i == 127 {
        TimesPLast();
      } else {
        TimesPUnit(i);
        UnitTimesPTo(i + 1, n - 1);
      }
    }
  }

  lemma TimesPLast()
    ensures TimesP(Unit(127)) == REDUCTION
  {
    assert Shift(Unit(127)) == ZERO;
    AddZero(REDUCTION);
  }

  /**
   * The powers of P multiply by adding exponents, and P^128 is 1 + P + P^2 + P^7. With the laws of a ring this
   * determines every product.
   */
  lemma PowersMultiply(x: Elem, y: Elem, i: nat, j: nat)
    requires i < 128 && j < 128 && i + j <= 128
    requires forall n :: 0 <= n < 128 ==> x[n] == (n == i) && y[n] == (n == j)
    ensures forall n :: 0 <= n < 128 ==>
      Product(x, y)[n] == if i + j < 128 then n == i + j else n == 0 || n == 1 || n == 2 || n == 7
  {
    hide Product, Dot, TimesP, TimesPTo;
    assert x == Unit(i) && y == Unit(j);
    ProductIsDot(x, y);
    UnitTimesPTo(0, j);
    DotTimesPTo(x, ONE, j);
    DotOne(x);
    UnitTimesPTo(i, j);
  }

  /** The block product of section 6.3 of NIST SP 800-38D is commutative. */
  lemma ProductCommutes(x: Elem, y: Elem)
    ensures Product(x, y) == Product(y, x)
  {
    DotOne(x);
    DotOne(y);
    DotCommutes(x, y, ONE);
    ProductIsDot(x, y);
    ProductIsDot(y, x);
  }
}
