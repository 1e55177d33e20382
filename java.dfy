/** The few notions of the Java runtime that the three containers rely on. */
module Java {

  /** A Java reference of static type T: null or an object. */
  datatype Nullable<T> = Null | NonNull(get: T)

  /** The unchecked exceptions the containers let escape. */
  datatype Exception =
    | IndexOutOfBounds       // IndexOutOfBoundsException, thrown by the validateIndex helpers
    | ArrayIndexOutOfBounds  // its subclass, thrown by an array store or System.arraycopy
    | NoSuchElement          // NoSuchElementException, thrown by Iterator.next at the end
    | IllegalState           // IllegalStateException, thrown by Iterator.remove out of turn
    | NullPointer            // NullPointerException, a method called on null

  /** The outcome of a call: a normal return with a value, or a thrown exception. */
  datatype Result<T> = Ok(value: T) | Throw(exception: Exception)

  /** Java's 32-bit `int`, the range of `Object.hashCode`. */
  type Int32 = x: int | -0x8000_0000 <= x < 0x8000_0000

  function Abs(x: int): (r: int)
    ensures r >= 0 && (r == x || r == -x)
  {
    if x < 0 then -x else x
  }

  /** Java's `/` on integers: the quotient of the magnitudes, negated when the signs differ. */
  function Quot(a: int, b: int): (q: int)
    requires b != 0
    ensures Abs(q) == Abs(a) / Abs(b)
    ensures (a >= 0) == (b > 0) ==> q >= 0
    ensures (a >= 0) == (b < 0) ==> q <= 0
  {
    if (a >= 0) == (b > 0) then Abs(a) / Abs(b) else -(Abs(a) / Abs(b))
  }

  /**
   * Java's `%` on integers: what `a / b` leaves over, so it pairs with
   * `Quot` in `(a / b) * b + a % b == a` and has the dividend's sign.
   */
  function Rem(a: int, b: int): (r: int)
    requires b != 0
    ensures Quot(a, b) * b + r == a
    ensures Abs(r) < Abs(b)
    ensures a >= 0 ==> 0 <= r
    ensures a <= 0 ==> r <= 0
  {
    var m := Abs(b);
    assert Abs(a) == (Abs(a) / m) * m + Abs(a) % m;
    if a >= 0 then a % m else -((-a) % m)
  }
}
