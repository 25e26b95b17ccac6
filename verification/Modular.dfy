/** Facts about quotient and remainder that the ring and wheel indices rest on. */
module Modular {

  lemma MultipleInOrder(k: int, m: nat)
    requires m > 0
    ensures k >= 1 ==> k * m >= m
    ensures k >= 2 ==> k * m >= 2 * m
    ensures k <= 0 ==> k * m <= 0
  {
    if k >= 2 {
      assert k * m == (k - 2) * m + 2 * m;
    }
  }

  /** Two numbers at most one lap apart agree modulo the lap exactly when they are a lap apart. */
  lemma SameSlot(a: nat, b: nat, lap: nat)
    requires lap > 0 && a < b <= a + lap
    ensures a % lap == b % lap <==> b == a + lap
  {
    var qa, qb, ra, rb := a / lap, b / lap, a % lap, b % lap;
    assert a == qa * lap + ra && b == qb * lap + rb;
    var k := qb - qa;
    assert k * lap == qb * lap - qa * lap;
    MultipleInOrder(k, lap);
    MultipleInOrder(k - 1, lap);
    assert (k - 1) * lap == k * lap - lap;
  }

  /** Two numbers share a slot exactly when their successors do. */
  lemma SameNextSlot(a: nat, b: nat, lap: nat)
    requires lap > 0
    ensures (a + 1) % lap == (b + 1) % lap <==> a % lap == b % lap
  {
    NextSlot(a, lap);
    NextSlot(b, lap);
  }

  lemma NextSlot(a: nat, lap: nat)
    requires lap > 0
    ensures (a + 1) % lap == if a % lap == lap - 1 then 0 else a % lap + 1
  {
    var q, r := a / lap, a % lap;
    assert a + 1 == q * lap + (r + 1);
    if r == lap - 1 {
      assert a + 1 == (q + 1) * lap;
      MultipleHasNoRest(q + 1, 0, lap);
    } else {
      MultipleHasNoRest(q, r + 1, lap);
    }
  }

  lemma Distribute(a: int, b: int, m: int)
    ensures (a + b) * m == a * m + b * m
  {
  }

  lemma MultipleHasNoRest(q: int, r: nat, lap: nat)
    requires r < lap
    ensures (q * lap + r) % lap == r
  {
    var q', r' := (q * lap + r) / lap, (q * lap + r) % lap;
    assert (q - q') * lap == r' - r;
    MultipleInOrder(q - q', lap);
    MultipleInOrder(q' - q, lap);
    assert (q' - q) * lap == r - r';
  }

  lemma LessThanALap(a: nat, lap: nat)
    requires a < lap
    ensures a % lap == a
  {
  }

  lemma LapsAndRest(a: int, lap: nat)
    requires lap > 0
    ensures a == a / lap * lap + a % lap
  {
  }
}
