/** The JavaScript number operations the status bar relies on, written out over
    unbounded integers and exact reals.

    - `~~x` truncates toward zero and then wraps into the signed 32-bit range
      (ToInt32 of ECMAScript); here `TruncReal` followed by `ToInt32`.
    - `a / b` followed by `~~` on integers is `TruncDiv`; `a % b` keeps the sign
      of the dividend and is `TruncRem` (Dafny's own `/` and `%` are Euclidean).
 */
module JsNumber {

  const TwoTo31: int := 0x8000_0000
  const TwoTo32: int := 0x1_0000_0000

  predicate IsInt32(x: int) {
    -TwoTo31 <= x < TwoTo31
  }

  /** `~~x` for an integral `x`: reduce modulo 2^32 into [-2^31, 2^31). */
  function ToInt32(x: int): (r: int)
    ensures IsInt32(r)
    ensures (x - r) % TwoTo32 == 0
    ensures IsInt32(x) ==> r == x
    ensures TwoTo31 <= x < TwoTo32 ==> r == x - TwoTo32
  {
    var m := x % TwoTo32;
    if m >= TwoTo31 then m - TwoTo32 else m
  }

  function Abs(x: int): nat {
    if x < 0 then -x else x
  }

  /** Integer quotient rounded toward zero, as `~~(a / b)` computes it for
      operands whose quotient fits in 32 bits. */
  function TruncDiv(a: int, b: int): (r: int)
    requires b != 0
    ensures a >= 0 && b > 0 ==> r == a / b
    ensures Abs(r) == Abs(a) / Abs(b)
    ensures r < 0 ==> (a < 0) != (b < 0)
    ensures (a < 0) != (b < 0) ==> r <= 0
  {
    DivOfNatIsNat(Abs(a), Abs(b));
    var q := Abs(a) / Abs(b);
    if (a < 0) != (b < 0) then -q else q
  }

  lemma DivOfNatIsNat(x: nat, y: int)
    requires y > 0
    ensures x / y >= 0
  {
  }

  /** JavaScript's `%`: the remainder takes the sign of the dividend. */
  function TruncRem(a: int, b: int): (r: int)
    requires b != 0
    ensures a >= 0 && b > 0 ==> r == a % b
    ensures a == TruncDiv(a, b) * b + r
    ensures Abs(r) < Abs(b)
    ensures r != 0 ==> (r < 0 <==> a < 0)
  {
    var m := Abs(a) % Abs(b);
    Reassemble(a, b);
    if a < 0 then -m else m
  }

  /** The truncated quotient and the signed remainder put `a` back together. */
  lemma Reassemble(a: int, b: int)
    requires b != 0
    ensures var q, m := Abs(a) / Abs(b), Abs(a) % Abs(b);
            && 0 <= m < Abs(b)
            && a == TruncDiv(a, b) * b + (if a < 0 then -m else m)
  {
    var x: int, y: int := Abs(a), Abs(b);
    var q: int, m: int := x / y, x % y;
    assert x == q * y + m;
    var d := TruncDiv(a, b);
    if a >= 0 && b > 0 {
      assert d == q;
    } else if a >= 0 {
      NegTimesNeg(q, b);
    } else if b > 0 {
      NegTimes(q, b);
    } else {
      NegTimesNeg(q, b);
      assert d * b == q * b;
    }
  }

  lemma NegTimesNeg(q: int, b: int)
    ensures (-q) * b == q * (-b)
  {
  }

  lemma NegTimes(q: int, b: int)
    ensures (-q) * b == -(q * b)
  {
  }

  /** Truncation of a real toward zero (the first half of `~~`). */
  function TruncReal(x: real): (r: int)
    ensures x >= 0.0 ==> 0 <= r && r as real <= x < r as real + 1.0
    ensures x < 0.0 ==> r <= 0 && r as real - 1.0 < x <= r as real
  {
    if x >= 0.0 then x.Floor else -((-x).Floor)
  }
}
