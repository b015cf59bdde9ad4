/**
 Java semantics the reading store depends on: 32-bit `int` arithmetic that
 wraps around, `int` division that truncates toward zero, and the two ways a
 Java call can end (a returned value, possibly `null`, or a thrown exception).
 */
module JavaInt {

  const TwoTo31: int := 0x8000_0000
  const TwoTo32: int := 0x1_0000_0000

  /** The range of a Java `int`. */
  predicate InInt32Range(x: int) {
    -TwoTo31 <= x < TwoTo31
  }

  /** The values of a Java `int`. */
  type Int32 = x: int | InInt32Range(x)

  function Abs(a: int): nat {
    if a < 0 then -a else a
  }

  /** The Java `int` that an exact integer result wraps around to (two's complement). */
  function Wrap32(x: int): (r: Int32)
    ensures (x - r) % TwoTo32 == 0
    ensures InInt32Range(x) ==> r == x
  {
    ((x + TwoTo31) % TwoTo32) - TwoTo31
  }

  /** Subtracting a multiple of the modulus leaves the remainder unchanged. */
  lemma ModShift(z: int, k: int)
    ensures (z - TwoTo32 * k) % TwoTo32 == z % TwoTo32
  {
    var q := z / TwoTo32;
    var m := z % TwoTo32;
    assert z - TwoTo32 * k == TwoTo32 * (q - k) + m;
    ModUnique(z - TwoTo32 * k, q - k, m);
  }

  lemma ModUnique(z: int, q: int, m: int)
    requires 0 <= m < TwoTo32
    requires z == TwoTo32 * q + m
    ensures z % TwoTo32 == m
  {
  }

  /**
   Accumulating into a Java `int` wraps at every step, which ends where
   wrapping the exact sum once would.
   */
  lemma WrapAdd(x: int, y: int)
    ensures Wrap32(Wrap32(x) + y) == Wrap32(x + y)
  {
    var a := x + TwoTo31;
    var k := a / TwoTo32;
    assert Wrap32(x) + y + TwoTo31 == (x + y + TwoTo31) - TwoTo32 * k;
    ModShift(x + y + TwoTo31, k);
  }

  /** Adding a non-zero `int` to an `int` always changes the wrapped result. */
  lemma WrapAddNonZero(t: Int32, a: Int32)
    requires a != 0
    ensures Wrap32(t + a) != t
  {
    assert InInt32Range(a);
    if Wrap32(t + a) == t {
      assert (t + a - t) % TwoTo32 == 0;
      assert a % TwoTo32 == 0;
      if a > 0 {
        ModUnique(a, 0, a);
      } else {
        ModUnique(a, -1, a + TwoTo32);
      }
      assert false;
    }
  }

  /**
   Java's `a / b` for a positive divisor: the quotient is truncated toward
   zero, so it has the dividend's sign and no larger a magnitude, and it is
   0 exactly when the dividend is smaller than the divisor in magnitude.
   */
  function JavaDiv(a: int, b: int): (q: int)
    requires b > 0
    ensures 0 <= a ==> 0 <= q
    ensures a <= 0 ==> q <= 0
    ensures Abs(q) <= Abs(a)
    ensures q == 0 <==> Abs(a) < b
  {
    if a >= 0 then
      DivBounds(a, b);
      a / b
    else
      DivBounds(-a, b);
      -((-a) / b)
  }

  /** The truncated quotient is within one divisor of the dividend, on the side of zero. */
  lemma JavaDivTruncates(a: int, b: int)
    requires b > 0
    ensures var q := JavaDiv(a, b);
      && (0 <= a ==> q * b <= a < q * b + b)
      && (a < 0 ==> q * b - b < a <= q * b)
  {
    if a >= 0 {
      DivBounds(a, b);
    } else {
      DivBounds(-a, b);
      var p := (-a) / b;
      assert JavaDiv(a, b) * b == -(p * b);
    }
  }

  /** Dividing by one gives the dividend back. */
  lemma JavaDivByOne(a: int)
    ensures JavaDiv(a, 1) == a
  {
    JavaDivTruncates(a, 1);
  }

  /** Euclidean division of a non-negative dividend, as plain bounds. */
  lemma DivBounds(n: int, b: int)
    requires 0 <= n && 0 < b
    ensures 0 <= n / b <= n
    ensures (n / b) * b <= n < (n / b) * b + b
    ensures n / b == 0 <==> n < b
  {
    var q := n / b;
    var m := n % b;
    assert n == b * q + m && 0 <= m < b;
    assert q * b == b * q;
    MulAtLeast(q, b);
  }

  lemma MulNonNegative(x: int, y: int)
    requires 0 <= x && 0 <= y
    ensures 0 <= x * y
  {
  }

  lemma MulAtLeast(q: int, b: int)
    requires 0 <= q && 1 <= b
    ensures q <= q * b
  {
    MulNonNegative(q, b - 1);
    assert q * b == q * (b - 1) + q;
  }

  /**
   An exception the modelled Java code can throw. `SQLiteException` stands
   for the database engine rejecting a statement.
   */
  datatype JavaException = NullPointerException | ArithmeticException | SQLiteException

  /** A Java reference that may be `null`. */
  datatype Nullable<T> = Null | Ref(value: T)

  /** How a Java call ends: it returns a value or throws. */
  datatype Outcome<T> = Returned(value: T) | Threw(exception: JavaException)
}
