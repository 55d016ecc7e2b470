/**
 Java language semantics the property descriptor relies on: 32-bit `int`
 arithmetic with two's-complement wrap-around, `Boolean.hashCode`, `null`
 references and methods that either return or throw.
 */
module JavaLang {

  /** Java's `int`: a 32-bit two's-complement integer. */
  newtype Int32 = x: int | -0x8000_0000 <= x < 0x8000_0000

  /** 2^32, the modulus of `int` arithmetic. */
  const Modulus: int := 0x1_0000_0000

  /** `x` and `y` agree in their low 32 bits. */
  predicate Congruent(x: int, y: int) {
    (x - y) % Modulus == 0
  }

  /** Narrowing of an exact integer to `int`: the unique `int` congruent to `x` modulo 2^32. */
  function Wrap(x: int): (r: Int32)
    ensures Congruent(x, r as int)
  {
    var m := x % Modulus;
    if m < 0x8000_0000 then m as Int32 else (m - Modulus) as Int32
  }

  /** Java `a + b` on `int` operands. */
  function IntAdd(a: Int32, b: Int32): Int32 {
    Wrap(a as int + b as int)
  }

  /** Java `a * b` on `int` operands. */
  function IntMul(a: Int32, b: Int32): Int32 {
    Wrap(a as int * b as int)
  }

  /** `Boolean.hashCode`: 1231 for `true`, 1237 for `false`. */
  function BooleanHashCode(b: bool): Int32 {
    if b then 1231 else 1237
  }

  /** `Wrap` picks the one `int` congruent to its argument. */
  lemma WrapUnique(x: int, r: Int32)
    requires Congruent(x, r as int)
    ensures Wrap(x) == r
  {
  }

  lemma CongruentSymmetric(x: int, y: int)
    requires Congruent(x, y)
    ensures Congruent(y, x)
  {
  }

  lemma CongruentTransitive(x: int, y: int, z: int)
    requires Congruent(x, y) && Congruent(y, z)
    ensures Congruent(x, z)
  {
  }

  lemma MultipleIsCongruentToZero(q: int)
    ensures (Modulus * q) % Modulus == 0
  {
  }

  /** Congruence is kept by adding the same amount and by scaling with the same factor. */
  lemma CongruentAffine(x: int, y: int, k: int, c: int)
    requires Congruent(x, y)
    ensures Congruent(k * x + c, k * y + c)
  {
    var q := (x - y) / Modulus;
    assert x - y == Modulus * q;
    assert (k * x + c) - (k * y + c) == k * (x - y);
    assert k * (x - y) == Modulus * (k * q);
    MultipleIsCongruentToZero(k * q);
  }

  /** Java's `k * a + c` in `int` arithmetic is the exact `k * a + c` wrapped once. */
  lemma MulAddWrapsOnce(k: Int32, a: Int32, c: Int32, exact: int)
    requires Congruent(a as int, exact)
    ensures IntAdd(IntMul(k, a), c) == Wrap(k as int * exact + c as int)
  {
    var m := IntMul(k, a);
    var s := IntAdd(m, c);
    // m ≡ k*a, so m + c ≡ k*a + c ≡ k*exact + c
    CongruentSymmetric(k as int * a as int, m as int);
    CongruentAffine(m as int, k as int * a as int, 1, c as int);
    CongruentAffine(a as int, exact, k as int, c as int);
    CongruentTransitive(m as int + c as int, k as int * a as int + c as int, k as int * exact + c as int);
    CongruentSymmetric(m as int + c as int, s as int);
    CongruentTransitive(s as int, m as int + c as int, k as int * exact + c as int);
    CongruentSymmetric(s as int, k as int * exact + c as int);
    WrapUnique(k as int * exact + c as int, s);
  }

  /** A Java reference that may be `null`. */
  datatype Nullable<T> = Null | NonNull(value: T)

  /** The completion of a Java call: it returned a value or threw an exception. */
  datatype Outcome<T, E> = Returned(value: T) | Threw(exception: E)
}
