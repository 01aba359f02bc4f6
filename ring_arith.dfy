/** Counter arithmetic shared by the two ring queues: the number of queued
    elements is tail minus head, counters are mapped to slots by a remainder,
    and the in-process queue computes that remainder in 64-bit unsigned
    arithmetic. */
module RingArith {

  /** 2^64, the modulus of uint64_t arithmetic. */
  const TWO64: int := 0x1_0000_0000_0000_0000

  /** Number of elements between a head and a tail counter; both queues
      assert head <= tail before subtracting. */
  function UsedCnt(head: nat, tail: nat): (r: nat)
    requires head <= tail
    ensures head + r == tail
  {
    tail - head
  }

  /** A product of a non-zero integer and a positive one is at least that far from zero. */
  lemma MulAwayFromZero(d: int, m: int)
    requires m > 0
    ensures d >= 1 ==> d * m >= m
    ensures d <= -1 ==> d * m <= -m
  {
  }

  /** Euclidean division is unique: any decomposition x == q * m + r with
      0 <= r < m gives the remainder. */
  lemma {:induction false} ModUnique(x: int, m: int, q: int, r: int)
    requires m > 0 && 0 <= r < m && x == q * m + r
    ensures x % m == r
  {
    var q', r' := x / m, x % m;
    assert (q - q') * m == r' - r;
    MulAwayFromZero(q - q', m);
  }

  /** Adding a multiple of m does not change the remainder modulo m. */
  lemma {:induction false} ModAddMultiple(a: int, m: int, x: int)
    requires m > 0
    ensures (a * m + x) % m == x % m
  {
    var q, r := x / m, x % m;
    assert a * m + x == (a + q) * m + r;
    ModUnique(a * m + x, m, a + q, r);
  }

  /** Reducing first modulo a multiple of m and then modulo m is reducing modulo m. */
  lemma {:induction false} ModModMultiple(x: int, m: int, k: int)
    requires m > 0 && k > 0
    ensures x % (m * k) % m == x % m
  {
    var big := m * k;
    var q, r := x / big, x % big;
    assert x == (q * k) * m + r;
    ModAddMultiple(q * k, m, r);
  }

  /** Two counters fewer than m apart never share a slot. */
  lemma {:induction false} ModWindowDistinct(a: int, b: int, m: int)
    requires m > 0 && a < b < a + m
    ensures a % m != b % m
  {
    if a % m == b % m {
      assert (b / m - a / m) * m == b - a;
      MulAwayFromZero(b / m - a / m, m);
    }
  }

}
