/** Small shared vocabulary: optional values, bytes and Python's integer operators. */
module Basics {

  datatype Option<+T> = None | Some(value: T)

  /** One 8-bit channel value, as held in an image's RGB or alpha buffer. */
  type byte = b: int | 0 <= b < 256

  function Min(a: int, b: int): int { if a <= b then a else b }

  function Max(a: int, b: int): int { if a >= b then a else b }

  /** Python's `a % d`: the remainder takes the sign of the divisor (floor division). */
  function PyMod(a: int, d: int): (r: int)
    requires d != 0
    ensures d > 0 ==> r == a % d && 0 <= r < d
    ensures d < 0 ==> d < r <= 0
  {
    if d > 0 || a % d == 0 then a % d else a % d + d
  }

  /** `int(a / d)` for a true (float) quotient with d > 0: the quotient truncated toward zero. */
  function TruncDiv(a: int, d: int): int
    requires d > 0
  {
    if a >= 0 then a / d else -((-a) / d)
  }

  /** The only multiple of a positive c strictly between -c and c is 0. */
  lemma SmallMultiple(m: int, c: int)
    requires c > 0 && -c < m * c < c
    ensures m == 0
  {
    if m >= 1 {
      assert m * c == (m - 1) * c + c;
      MulNonneg(m - 1, c);
    }
  }

  lemma MulNonneg(a: int, b: int)
    requires a >= 0 && b >= 0
    ensures a * b >= 0
  {
  }

  /** Euclidean division is determined by its defining equation. */
  lemma DivModUnique(a: int, c: int, q: int, r: int)
    requires c > 0 && 0 <= r < c && a == q * c + r
    ensures a / c == q && a % c == r
  {
    var q0, r0 := a / c, a % c;
    assert a == q0 * c + r0;
    assert (q - q0) * c == r0 - r;
    SmallMultiple(q - q0, c);
  }

  lemma MulDivExact(k: int, c: int)
    requires c > 0
    ensures (k * c) / c == k && (k * c) % c == 0
  {
    DivModUnique(k * c, c, k, 0);
  }

  lemma ModSubCell(a: int, c: int)
    requires c > 0
    ensures (a - c) % c == a % c
  {
    assert a == (a / c) * c + a % c;
    assert a - c == (a / c - 1) * c + a % c;
    DivModUnique(a - c, c, a / c - 1, a % c);
  }

  // Sequence steps proved once over an arbitrary element type, so that loops over sequences of
  // records need not compare the records themselves.

  lemma TakeSnoc<T>(s: seq<T>, i: int)
    requires 0 <= i < |s|
    ensures s[..i + 1] == s[..i] + [s[i]]
  {
  }

  lemma DropNext<T>(s: seq<T>, i: int)
    requires 0 <= i < |s|
    ensures s[i..][1..] == s[i + 1..]
  {
  }

  lemma AppendRegroup<T>(a: seq<T>, x: T, b: seq<T>)
    ensures (a + [x]) + b == a + ([x] + b)
  {
  }
}
