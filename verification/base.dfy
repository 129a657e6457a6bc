/** Small shared vocabulary: an optional value (JavaScript's `null`/`undefined`
    versus a present value), a success/error result, and the line-terminator
    characters that a JavaScript regular expression's `.` refuses to match. */
module Base {

  /** A value that may be missing. */
  datatype Option<+T> = None | Some(value: T) {

    /** The value, or `default` when it is missing (JavaScript's `x || default`
        when `x` is either missing or falsy in the same way as `default`). */
    function GetOr(default: T): T {
      match this
      case Some(v) => v
      case None => default
    }
  }

  /** The outcome of an operation that may throw. */
  datatype Result<+T, +E> = Ok(value: T) | Err(error: E)

  /** The characters that end a line for a JavaScript regular expression:
      `.` matches every character except these four. */
  predicate IsLineTerminator(c: char) {
    c == '\n' || c == '\r' || c == '\U{2028}' || c == '\U{2029}'
  }

  /** True when no character of `s` ends a line. */
  predicate SingleLine(s: string) {
    forall k :: 0 <= k < |s| ==> !IsLineTerminator(s[k])
  }

  /** Division with remainder is unique: a quotient and a remainder in
      `[0, b)` that rebuild `a` are Dafny's `/` and `%`. */
  lemma DivModUnique(a: int, b: int, q: int, r: int)
    requires b > 0 && a == q * b + r && 0 <= r < b
    ensures a / b == q && a % b == r
  {
    var d := a / b - q;
    assert d * b == (a / b) * b - q * b;
    MulBound(d, b);
  }

  /** A non-zero multiple of a positive number is at least that number in
      size. */
  lemma MulBound(d: int, b: int)
    requires b > 0
    ensures d >= 1 ==> d * b >= b
    ensures d <= -1 ==> d * b <= -b
  {
  }
}
