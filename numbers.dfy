/** The JavaScript number operations the timer relies on, on integers. */
module Numbers {

  /** `Math.max` on two integers. */
  function Max(a: int, b: int): (m: int)
    ensures m >= a && m >= b && (m == a || m == b)
  {
    if a >= b then a else b
  }

  /** `Math.min` on two integers. */
  function Min(a: int, b: int): (m: int)
    ensures m <= a && m <= b && (m == a || m == b)
  {
    if a <= b then a else b
  }

  /** JavaScript's `%` with a positive divisor: the remainder takes the
      sign of the dividend (it truncates toward zero), unlike Dafny's `%`. */
  function TruncRem(a: int, b: int): (r: int)
    requires b > 0
    ensures a >= 0 ==> r == a % b
    ensures a < 0 ==> -b < r <= 0
    ensures r == a - b * (if a >= 0 then a / b else -((-a) / b))
  {
    if a >= 0 then a % b else -((-a) % b)
  }

  /** `Math.ceil(ms / 1000)` for an integer number of milliseconds. */
  function CeilThousandth(ms: int): (s: int)
    ensures (s - 1) * 1000 < ms <= s * 1000
  {
    -((-ms) / 1000)
  }

  /** `Math.round(seconds / 60)` for integer seconds: JavaScript rounds a
      half up, so this is the floor of `(seconds + 30) / 60`. */
  function RoundSixtieth(seconds: int): (m: int)
    ensures m * 60 - 30 <= seconds < m * 60 + 30
  {
    (seconds + 30) / 60
  }

  lemma {:induction false} CeilThousandthMonotone(a: int, b: int)
    requires a <= b
    ensures CeilThousandth(a) <= CeilThousandth(b)
  {
  }

  lemma {:induction false} CeilThousandthWhole(d: int)
    ensures CeilThousandth(d * 1000) == d
  {
  }
}
