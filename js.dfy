/** The parts of JavaScript's semantics that the browser scripts rely on: the truncating `%` on numbers,
    `String.prototype.length` (UTF-16 code units) and the page's `document.body.style.overflow`. */
module Js {
  import opened Strings

  /** `Math.trunc(a / b)`: the quotient of integral numbers rounded toward zero. */
  function Quot(a: int, b: int): int
    requires b > 0
  {
    if a >= 0 then a / b else -((-a) / b)
  }

  /** `a % b` on integral numbers: the remainder left by the quotient rounded toward zero, so its sign follows `a`. */
  function Rem(a: int, b: int): (r: int)
    requires b > 0
    ensures a == Quot(a, b) * b + r
    ensures a >= 0 ==> 0 <= r < b
    ensures a < 0 ==> -b < r <= 0
  {
    if a >= 0 then a % b else -((-a) % b)
  }

  lemma MulAtLeast(k: int, m: int)
    requires k >= 1 && m > 0
    ensures k * m >= m
  {
    assert k * m == (k - 1) * m + m;
  }

  /** Quotient and remainder are the only pair with `n == q * m + r` and `0 <= r < m`. */
  lemma DivUnique(n: int, m: int, q: int, r: int)
    requires m > 0 && 0 <= r < m && n == q * m + r
    ensures n / m == q && n % m == r
  {
    var q0, r0 := n / m, n % m;
    assert (q - q0) * m == r0 - r;
    if q > q0 {
      MulAtLeast(q - q0, m);
    } else if q < q0 {
      MulAtLeast(q0 - q, m);
    }
  }

  /** A dividend below twice the divisor wraps round at most once. */
  lemma RemWrapOnce(a: int, b: int)
    requires b > 0 && 0 <= a < 2 * b
    ensures Rem(a, b) == if a < b then a else a - b
  {
    if a < b {
      DivUnique(a, b, 0, a);
    } else {
      DivUnique(a, b, 1, a - b);
    }
  }

  /** The number of UTF-16 code units of `s`: characters outside the Basic Multilingual Plane take two. */
  function Utf16Length(s: string): (n: nat)
    ensures |s| <= n <= 2 * |s|
  {
    if s == [] then 0 else (if s[0] as int > 0xFFFF then 2 else 1) + Utf16Length(s[1..])
  }

  /** The length JavaScript reports equals the number of characters exactly when none lies outside the BMP. */
  lemma {:induction false} Utf16LengthBmp(s: string)
    ensures Utf16Length(s) == |s| <==> forall k :: 0 <= k < |s| ==> s[k] as int <= 0xFFFF
  {
    if s != [] {
      Utf16LengthBmp(s[1..]);
      assert forall k :: 1 <= k < |s| ==> s[k] == s[1..][k - 1];
    }
  }

  /** `s.trim()`. */
  function JsTrim(s: string): string
  {
    Trim(s, JsIsSpace)
  }

  /** `document.body`, shared by every script that locks page scrolling: `overflowHidden` is
      `style.overflow == 'hidden'`, and false is the empty value `''`. */
  class Body {
    var overflowHidden: bool

    constructor()
      ensures !overflowHidden
    {
      overflowHidden := false;
    }
  }
}
