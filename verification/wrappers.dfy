/** Failure-compatible wrappers used throughout the model.

A Java reference that may be null becomes an `Option`; a call that may throw
becomes a `Result` whose failure names the Java exception class.
 */
module Wrappers {

  /** A value that may be absent (a Java reference that may be null). */
  datatype Option<+T> = None | Some(value: T) {

    predicate IsFailure() {
      None?
    }

    function PropagateFailure<U>(): Option<U>
      requires None?
    {
      None
    }

    function Extract(): T
      requires Some?
    {
      value
    }
  }

  /** The exception classes the modelled code can raise, named as in the JDK, Android and Gson. */
  datatype Exception =
    | IllegalStateException
    | IllegalArgumentException
    | NullPointerException
    | ClassCastException
    | NumberFormatException
    | NegativeArraySizeException
    | JsonParseException
    | JsonSyntaxException
    | JsonIOException
    | EOFException
    | IOException
    | InterruptedIOException

  /** The outcome of a call that either returns a value or throws. */
  datatype Result<+T> = Ok(value: T) | Err(error: Exception) {

    predicate IsFailure() {
      Err?
    }

    function PropagateFailure<U>(): Result<U>
      requires Err?
    {
      Err(error)
    }

    function Extract(): T
      requires Ok?
    {
      value
    }
  }
}

/** Java's fixed-width integer arithmetic, written out over Dafny's unbounded integers. */
module JavaInts {

  const INT_MIN := -0x8000_0000
  const INT_MAX := 0x7FFF_FFFF
  const LONG_MIN := -0x8000_0000_0000_0000
  const LONG_MAX := 0x7FFF_FFFF_FFFF_FFFF

  predicate IsInt(n: int) {
    INT_MIN <= n <= INT_MAX
  }

  predicate IsLong(n: int) {
    LONG_MIN <= n <= LONG_MAX
  }

  /** The narrowing conversion `(int) n`: keeps the low 32 bits as a two's-complement value. */
  function ToInt(n: int): (r: int)
    ensures IsInt(r)
    ensures (n - r) % 0x1_0000_0000 == 0
    ensures IsInt(n) ==> r == n
  {
    if IsInt(n) then n
    else
      var m := n % 0x1_0000_0000;
      if m > INT_MAX then m - 0x1_0000_0000 else m
  }

  /** The narrowing conversion `(long) n`: keeps the low 64 bits as a two's-complement value. */
  function ToLong(n: int): (r: int)
    ensures IsLong(r)
    ensures (n - r) % 0x1_0000_0000_0000_0000 == 0
    ensures IsLong(n) ==> r == n
  {
    if IsLong(n) then n
    else
      var m := n % 0x1_0000_0000_0000_0000;
      if m > LONG_MAX then m - 0x1_0000_0000_0000_0000 else m
  }

  /** Narrowing to long and then to int is narrowing to int. */
  lemma ToIntOfToLong(n: int)
    ensures ToInt(ToLong(n)) == ToInt(n)
  {
    var l := ToLong(n);
    var q := (n - l) / 0x1_0000_0000_0000_0000;
    assert n == l + q * 0x1_0000_0000_0000_0000;
    assert n % 0x1_0000_0000 == l % 0x1_0000_0000 by {
      assert q * 0x1_0000_0000_0000_0000 == (q * 0x1_0000_0000) * 0x1_0000_0000;
    }
  }

  /** Java's integer division `a / b`, which truncates toward zero. */
  function Div(a: int, b: int): (q: int)
    requires b != 0
    ensures var r := a - q * b;
            (if r < 0 then -r else r) < (if b < 0 then -b else b) &&
            (r == 0 || (r < 0) == (a < 0))
  {
    var m := (if a < 0 then -a else a) / (if b < 0 then -b else b);
    if (a < 0) != (b < 0) then -m else m
  }
}
