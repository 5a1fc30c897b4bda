/** Powers of two, and rounding a request up to one. */
module Powers {

  /** `n` is one of 1, 2, 4, 8, ... */
  predicate IsPow2(n: int)
    decreases if n < 0 then 0 else n
  {
    n == 1 || (n > 1 && n % 2 == 0 && IsPow2(n / 2))
  }

  /** Two distinct powers of two are at least a factor two apart. */
  lemma {:induction false} Pow2Gap(a: int, b: int)
    requires IsPow2(a) && IsPow2(b)
    ensures a < b ==> 2 * a <= b
    decreases b
  {
    if 1 < a < b {
      Pow2Gap(a / 2, b / 2);
    }
  }

  /**
   * Reference definition of "the smallest power of two that is at least n",
   * computed by halving the request (rounding up) rather than by doubling.
   */
  function RoundUp(n: int): (p: int)
    ensures IsPow2(p) && n <= p
    ensures n <= 1 ==> p == 1
    ensures n >= 1 ==> p < 2 * n
    decreases n
  {
    if n <= 1 then 1 else 2 * RoundUp((n + 1) / 2)
  }

  /** No power of two at least `n` is smaller than `RoundUp(n)`. */
  lemma {:induction false} RoundUpIsLeast(n: int, q: int)
    requires IsPow2(q) && n <= q
    ensures RoundUp(n) <= q
    decreases n
  {
    if n > 1 {
      RoundUpIsLeast((n + 1) / 2, q / 2);
    }
  }

  /**
   * `RoundUp(n)` is the one power of two `p` with `p / 2 < n <= p`: the
   * value `roundUpToPowerOfTwo` returns for a request of `n`.
   */
  lemma RoundUpExact(n: int, p: int)
    requires IsPow2(p) && p / 2 < n <= p
    ensures RoundUp(n) == p
  {
    RoundUpIsLeast(n, p);
    Pow2Gap(RoundUp(n), p);
  }
}
