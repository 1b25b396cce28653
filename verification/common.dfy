/** Small shared vocabulary: Java's nullable references, the HTTP outcomes the
    handlers produce, and Java's truncating long division. */
module Common {

  /** A Java reference that may be null. */
  datatype Option<+T> = None | Some(value: T)

  /** The HTTP statuses the modelled handlers and the security layer answer with. */
  datatype Status = Ok | Created | NoContent | BadRequest | NotFound | Unauthorized | Forbidden

  /** A quotient and remainder of a non-negative dividend bound it from both sides. */
  lemma QuotientBounds(n: int, b: int, q: int, r: int)
    requires n >= 0 && b > 0 && 0 <= r < b && n == q * b + r
    ensures 0 <= q && q * b <= n < q * b + b
  {
  }

  /** Java's `/` on `long`: the quotient is truncated toward zero, unlike
      Dafny's Euclidean division on negative dividends. */
  function JavaDiv(a: int, b: int): (q: int)
    requires b > 0
    ensures a >= 0 ==> 0 <= q && q * b <= a < q * b + b
    ensures a < 0 ==> q <= 0 && q * b - b < a <= q * b
  {
    var n := if a >= 0 then a else -a;
    var m := n / b;
    QuotientBounds(n, b, m, n % b);
    assert (-m) * b == -(m * b);
    if a >= 0 then m else -m
  }

  /** `s` begins with `p` (Java's String.startsWith, case-sensitive). */
  predicate StartsWith(s: string, p: string)
  {
    |p| <= |s| && s[..|p|] == p
  }

  /** A member of a set other than the empty set. */
  lemma MemberOf<T>(s: set<T>) returns (x: T)
    requires s != {}
    ensures x in s
  {
    if forall y :: y !in s {
      assert false;
    }
    x :| x in s;
  }
}
