/** Arithmetic modulo the Mersenne prime P = 2^31 - 1 (src/crypto/field.rs).

    A `FieldElement` wraps a residue in [0, P). The four operators are pure
    functions on copied values; `pow` is a square-and-multiply loop, so it and
    the two operations built on it (`inverse`, `div`) are methods.

    `pow` seeds its accumulator with the base instead of one, so for e >= 1 it
    returns a^(e+1); consequently `inverse(a)` returns a^(P-1) and `a / b`
    returns a * b^(P-1). Those are the semantics modelled here. */
module Field {

  const P: nat := 2147483647
  const UINT64_LIMIT: nat := 0x1_0000_0000_0000_0000

  type uint64 = x: int | 0 <= x < UINT64_LIMIT

  /** The only values a `FieldElement` can hold. */
  type Residue = v: nat | v < P

  datatype Option<T> = None | Some(value: T)

  datatype FieldElement = FieldElement(value: Residue)

  const Zero: FieldElement := FieldElement(0)
  const One: FieldElement := FieldElement(1)

  /** `FieldElement::new` (and `From<u64>`, which calls it): reduce modulo P. */
  function New(v: uint64): (r: FieldElement)
    ensures r.value <= v && (v - r.value) % P == 0
    ensures v < P ==> r.value == v
  {
    FieldElement(v % P)
  }

  /** The sum is computed in 64 bits and corrected by one subtraction of P;
      binding it as a `uint64` makes the verifier check that the addition
      cannot overflow. */
  function Add(a: FieldElement, b: FieldElement): (r: FieldElement)
    ensures r.value == (a.value + b.value) % P
  {
    var sum: uint64 := a.value + b.value;
    New(if sum >= P then sum - P else sum)
  }

  /** Subtraction without going below zero: when b > a it adds P first. */
  function Sub(a: FieldElement, b: FieldElement): (r: FieldElement)
    ensures r.value == (a.value - b.value) % P
  {
    var diff: uint64 := if a.value >= b.value then a.value - b.value else P - (b.value - a.value);
    New(diff)
  }

  /** The product is formed in 128 bits, where two residues cannot
      overflow, and reduced modulo P before narrowing to 64 bits. Its value
      is stated by `MulValue`. */
  function Mul(a: FieldElement, b: FieldElement): FieldElement
  {
    New(Product(a.value, b.value) % P)
  }

  /** The integer product x * y, spelled out as repeated addition so that a
      proof only meets nonlinear arithmetic where it asks for it, through
      `ProductIsMul`. */
  function Product(x: nat, y: nat): nat
  {
    if y == 0 then 0 else Product(x, y - 1) + x
  }

  /** a^n by repeated multiplication: the reference against which the
      square-and-multiply loop of `Pow` is proved. */
  function Power(a: FieldElement, n: nat): FieldElement
  {
    if n == 0 then One else Mul(Power(a, n - 1), a)
  }

  /** floor(log2 e) for e >= 1: the number of rounds of the `Pow` loop. */
  function Log2(e: nat): nat
  {
    if e <= 1 then 0 else 1 + Log2(e / 2)
  }

  /** `pow` as written: exponent 0 gives one; otherwise `result` starts at the
      base (not at one), so the loop multiplies in one factor too many. */
  method Pow(a: FieldElement, e: nat) returns (r: FieldElement, ghost rounds: nat)
    ensures e == 0 ==> r == One
    ensures e >= 1 ==> r == Power(a, e + 1)
    ensures e >= 1 ==> rounds == Log2(e)
  {
    if e == 0 {
      return One, 0;
    }
    r := a;
    var exp := e;
    var base := a;
    rounds := 0;
    MulComm(a, Power(a, e));
    while exp > 1
      invariant exp >= 1
      invariant Mul(r, Power(base, exp)) == Power(a, e + 1)
      invariant rounds + Log2(exp) == Log2(e)
      decreases exp
    {
      PowerHalving(base, exp);
      if exp % 2 == 1 {
        MulAssoc(r, base, Power(Mul(base, base), exp / 2));
        r := Mul(r, base);
      }
      base := Mul(base, base);
      exp := exp / 2;
      rounds := rounds + 1;
    }
    if exp == 1 {
      PowerOne(base);
      r := Mul(r, base);
    }
  }

  /** `inverse`: None exactly for zero, otherwise `pow(P - 2)`, which the
      as-written `pow` makes a^(P-1). */
  method Inverse(a: FieldElement) returns (r: Option<FieldElement>)
    ensures r.None? <==> a.value == 0
    ensures r.Some? ==> r.value == Power(a, P - 1)
  {
    if a.value == 0 {
      return None;
    }
    var p: FieldElement;
    ghost var rounds: nat;
    p, rounds := Pow(a, P - 2);
    r := Some(p);
  }

  /** `div` panics when the divisor is zero, so a zero divisor is excluded
      here; otherwise it multiplies by whatever `inverse` returned. */
  method Div(a: FieldElement, b: FieldElement) returns (r: FieldElement)
    requires b.value != 0
    ensures r == Mul(a, Power(b, P - 1))
  {
    var inv := Inverse(b);
    r := Mul(a, inv.value);
  }

  // ---------------------------------------------------------------------
  // The primality of P

  /** Fermat's little theorem for P. It holds because P is prime; its proof
      is not part of this model, so the lemmas and clients that depend on it
      take it as an explicit hypothesis. */
  ghost predicate FermatLittleTheorem()
  {
    forall a: FieldElement :: FermatAt(a)
  }

  /** The theorem at one element: a^(P-1) = 1 for a non-zero. A proof that
      needs it at a names the element, which keeps the hypothesis from being
      applied to every element in sight. */
  ghost predicate FermatAt(a: FieldElement)
  {
    a.value != 0 ==> Power(a, P - 1) == One
  }

  /** A product of non-zero residues is non-zero, derived from Fermat's
      little theorem: (ab)^(P-1) = a^(P-1) b^(P-1) = 1, while 0^(P-1) = 0. */
  lemma NoZeroDivisors(a: FieldElement, b: FieldElement)
    requires FermatLittleTheorem()
    requires a.value != 0 && b.value != 0
    ensures Mul(a, b).value != 0
  {
    assert FermatAt(a) && FermatAt(b);
    PowerOfProduct(a, b, P - 1);
    PowerOfZero(P - 1);
    MulOne(One);
  }

  /** What `a / b` computes for a non-zero divisor: a itself, because the
      as-written `inverse` returns b^(P-1) = 1. */
  lemma DivIsIdentity(a: FieldElement, b: FieldElement)
    requires FermatLittleTheorem()
    requires b.value != 0
    ensures Mul(a, Power(b, P - 1)) == a
  {
    assert FermatAt(b);
    MulOne(a);
  }

  /** `a * inverse(a)` is a, not one: the identity the field tests expect
      holds only for a = 1. */
  lemma MulByInverseIsSelf(a: FieldElement)
    requires FermatLittleTheorem()
    requires a.value != 0
    ensures Mul(a, Power(a, P - 1)) == a
    ensures Mul(a, Power(a, P - 1)) == One <==> a == One
  {
    assert FermatAt(a);
    MulOne(a);
  }

  /** With the field test's values, `(a * b) / b` is a * b and not a. */
  lemma DivAfterMulOfTestValues()
    requires FermatLittleTheorem()
    ensures var a, b := FieldElement(123456789), FieldElement(987654321);
            Mul(Mul(a, b), Power(b, P - 1)) == Mul(a, b) != a
  {
    var a, b := FieldElement(123456789), FieldElement(987654321);
    DivIsIdentity(Mul(a, b), b);
    MulValue(a, b);
  }

  /** `pow(3)` is a^4, which agrees with the a * a * a the field test
      expects only for zero and one: otherwise a^3 is non-zero and can be
      cancelled. */
  lemma PowThreeIsCubeOnlyForZeroOrOne(a: FieldElement)
    requires FermatLittleTheorem()
    ensures Power(a, 3 + 1) == Mul(Mul(a, a), a) <==> a == Zero || a == One
  {
    PowerOne(a);
    assert Power(a, 2) == Mul(a, a);
    var cube := Power(a, 3);
    assert cube == Mul(Mul(a, a), a);
    if a == Zero {
      PowerOfZero(3);
      PowerOfZero(4);
    } else if a == One {
      MulOne(One);
    } else {
      NoZeroDivisors(a, a);
      NoZeroDivisors(Mul(a, a), a);
      var inv := Power(cube, P - 2);
      assert FermatAt(cube);
      assert Power(cube, P - 1) == Mul(inv, cube);
      MulAssoc(inv, cube, a);
      MulOne(a);
    }
  }

  /** With the field test's value a = 123456789, `pow(3)` differs from
      a * a * a. */
  lemma PowThreeOfTestValue(a: FieldElement)
    requires FermatLittleTheorem()
    requires a.value == 123456789
    ensures Power(a, 3 + 1) != Mul(Mul(a, a), a)
  {
    PowThreeIsCubeOnlyForZeroOrOne(a);
  }

  // ---------------------------------------------------------------------
  // Field laws

  lemma AddComm(a: FieldElement, b: FieldElement)
    ensures Add(a, b) == Add(b, a)
  {
  }

  lemma AddAssoc(a: FieldElement, b: FieldElement, c: FieldElement)
    ensures Add(Add(a, b), c) == Add(a, Add(b, c))
  {
    ModAddLeft(a.value + b.value, c.value);
    ModAddRight(a.value, b.value + c.value);
  }

  lemma AddZero(a: FieldElement)
    ensures Add(a, Zero) == a && Add(Zero, a) == a
  {
  }

  lemma SubAdd(a: FieldElement, b: FieldElement)
    ensures Add(Sub(a, b), b) == a
  {
    ModAddLeft(a.value - b.value + P, b.value);
  }

  /** The difference of two elements is zero exactly when they are equal. */
  lemma SubZeroIffEqual(a: FieldElement, b: FieldElement)
    ensures Sub(a, b).value == 0 <==> a == b
  {
  }

  /** The value of a product: the integer product reduced modulo P. */
  lemma MulValue(a: FieldElement, b: FieldElement)
    ensures Mul(a, b).value == (a.value * b.value) % P
  {
    ProductIsMul(a.value, b.value);
  }

  lemma MulComm(a: FieldElement, b: FieldElement)
    ensures Mul(a, b) == Mul(b, a)
  {
    MulValue(a, b);
    MulValue(b, a);
    assert a.value * b.value == b.value * a.value;
  }

  lemma MulAssoc(a: FieldElement, b: FieldElement, c: FieldElement)
    ensures Mul(Mul(a, b), c) == Mul(a, Mul(b, c))
  {
    var x: nat, y: nat, z: nat := a.value, b.value, c.value;
    MulValue(a, b);
    MulValue(Mul(a, b), c);
    MulValue(b, c);
    MulValue(a, Mul(b, c));
    ModMulAssoc(x, y, z);
  }

  lemma MulOne(a: FieldElement)
    ensures Mul(a, One) == a && Mul(One, a) == a
  {
    MulValue(a, One);
    MulValue(One, a);
  }

  lemma MulZero(a: FieldElement)
    ensures Mul(a, Zero) == Zero && Mul(Zero, a) == Zero
  {
    MulValue(a, Zero);
    MulValue(Zero, a);
  }

  lemma MulDistributesOverAdd(a: FieldElement, b: FieldElement, c: FieldElement)
    ensures Mul(a, Add(b, c)) == Add(Mul(a, b), Mul(a, c))
  {
    var x: nat, y: nat, z: nat := a.value, b.value, c.value;
    MulValue(a, Add(b, c));
    MulValue(a, b);
    MulValue(a, c);
    ModMulDistrib(x, y, z);
  }

  // ---------------------------------------------------------------------
  // Powers

  lemma PowerOne(a: FieldElement)
    ensures Power(a, 1) == a
  {
    MulOne(a);
  }

  lemma {:induction false} PowerAdd(a: FieldElement, m: nat, n: nat)
    ensures Power(a, m + n) == Mul(Power(a, m), Power(a, n))
    decreases n
  {
    if n == 0 {
      MulOne(Power(a, m));
    } else {
      PowerAdd(a, m, n - 1);
      MulAssoc(Power(a, m), Power(a, n - 1), a);
    }
  }

  lemma {:induction false} PowerSquare(a: FieldElement, k: nat)
    ensures Power(Mul(a, a), k) == Power(a, 2 * k)
    decreases k
  {
    if k > 0 {
      PowerSquare(a, k - 1);
      PowerAdd(a, 2 * (k - 1), 2);
      PowerOne(a);
      assert Power(a, 2) == Mul(a, a);
    }
  }

  /** One round of square-and-multiply: an odd exponent peels off one factor. */
  lemma PowerHalving(b: FieldElement, n: nat)
    ensures Power(b, n) == if n % 2 == 1 then Mul(b, Power(Mul(b, b), n / 2))
                           else Power(Mul(b, b), n / 2)
  {
    PowerSquare(b, n / 2);
    if n % 2 == 1 {
      PowerAdd(b, 1, 2 * (n / 2));
      PowerOne(b);
    }
  }

  lemma {:induction false} PowerOfProduct(a: FieldElement, b: FieldElement, n: nat)
    ensures Power(Mul(a, b), n) == Mul(Power(a, n), Power(b, n))
    decreases n
  {
    if n == 0 {
      MulOne(One);
    } else {
      PowerOfProduct(a, b, n - 1);
      var x, y := Power(a, n - 1), Power(b, n - 1);
      calc {
        Power(Mul(a, b), n);
        Mul(Mul(x, y), Mul(a, b));
        { MulAssoc(Mul(x, y), a, b); }
        Mul(Mul(Mul(x, y), a), b);
        { MulAssoc(x, y, a); MulComm(y, a); MulAssoc(x, a, y); }
        Mul(Mul(Mul(x, a), y), b);
        { MulAssoc(Mul(x, a), y, b); }
        Mul(Power(a, n), Power(b, n));
      }
    }
  }

  lemma {:induction false} PowerOfZero(n: nat)
    requires n >= 1
    ensures Power(Zero, n) == Zero
  {
    MulZero(Power(Zero, n - 1));
  }

  // ---------------------------------------------------------------------
  // Modular arithmetic helpers

  lemma {:induction false} ProductIsMul(x: nat, y: nat)
    ensures Product(x, y) == x * y
  {
    if y > 0 {
      ProductIsMul(x, y - 1);
    }
  }

  lemma ModAddMultiple(k: int, m: int)
    ensures (k * P + m) % P == m % P
  {
  }

  lemma ModMulLeft(x: nat, y: nat)
    ensures (x % P) * y % P == x * y % P
  {
    var q, r := x / P, x % P;
    assert x * y == (q * y) * P + r * y;
    ModAddMultiple(q * y, r * y);
  }

  lemma ModMulRight(x: nat, y: nat)
    ensures x * (y % P) % P == x * y % P
  {
    ModMulLeft(y, x);
    assert x * (y % P) == (y % P) * x;
    assert x * y == y * x;
  }

  lemma ModMulAssoc(x: nat, y: nat, z: nat)
    ensures (x * y % P) * z % P == x * (y * z % P) % P
  {
    ModMulLeft(x * y, z);
    ModMulRight(x, y * z);
    assert (x * y) * z == x * (y * z);
  }

  lemma ModMulDistrib(x: nat, y: nat, z: nat)
    ensures x * ((y + z) % P) % P == (x * y % P + x * z % P) % P
  {
    ModMulRight(x, y + z);
    assert x * (y + z) == x * y + x * z;
    ModAddLeft(x * y, x * z);
    ModAddRight(x * y % P, x * z);
  }

  lemma ModAddLeft(x: int, y: int)
    ensures (x % P + y) % P == (x + y) % P
  {
    ModAddMultiple(x / P, x % P + y);
  }

  lemma ModAddRight(x: int, y: int)
    ensures (x + y % P) % P == (x + y) % P
  {
    ModAddMultiple(y / P, x + y % P);
  }
}
