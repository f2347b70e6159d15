/**
 The probe sequence of the compact hash map: slot 0 is the hash modulo the capacity, and each
 further slot is (5 * slot + 1 + perturb) modulo the capacity, where perturb starts as the hash
 and is shifted right by five bits after every step.

 The documented guarantee is that a power-of-two capacity makes the sequence visit all slots.
 It does exactly for hashes that are not negative: the arithmetic shift of a negative number
 stops at -1, and from then on the step is multiplication by five.
 */
module ProbeSequence {
  import opened Powers

  /** The value of `perturb` at the n-th probe; `>>= 5` rounds towards minus infinity. */
  function Perturb(hash: int, n: nat): int {
    if n == 0 then hash else Perturb(hash, n - 1) / 32
  }

  /** `x & (capacity - 1)` for a capacity that is a power of two. */
  function Mask(x: int, capacity: nat): (r: nat)
    requires capacity > 0
    ensures r < capacity
  {
    x % capacity
  }

  function Slot(hash: int, capacity: nat, n: nat): (s: nat)
    requires capacity > 0
    ensures s < capacity
  {
    if n == 0 then Mask(hash, capacity)
    else Mask(5 * Slot(hash, capacity, n - 1) + 1 + Perturb(hash, n - 1), capacity)
  }

  ghost predicate Visits(hash: int, capacity: nat, s: nat)
    requires capacity > 0
  {
    exists n :: Slot(hash, capacity, n) == s
  }

  // ----- The recurrence x -> 5x + 1 over the integers -----

  ghost function Iterate(x: int, n: nat): int {
    if n == 0 then x else 5 * Iterate(x, n - 1) + 1
  }

  lemma {:induction false} IterateAdds(x: int, m: nat, n: nat)
    ensures Iterate(x, m + n) == Iterate(Iterate(x, m), n)
  {
    if n > 0 { IterateAdds(x, m, n - 1); }
  }

  lemma {:induction false} IterateClosedForm(x: int, n: nat)
    ensures Iterate(x, n) == x + Iterate(0, n) * (4 * x + 1)
  {
    if n > 0 { IterateClosedForm(x, n - 1); }
  }

  /** After 2^k steps from zero exactly k factors of two have accumulated. */
  lemma {:induction false} PowerOfTwoSteps(k: nat) returns (odd: int)
    ensures Iterate(0, Pow2(k)) == Pow2(k) * (2 * odd + 1)
  {
    if k == 0 {
      assert Iterate(0, 1) == 5 * Iterate(0, 0) + 1;
      odd := 0;
    } else {
      var half := Pow2(k - 1);
      var o := PowerOfTwoSteps(k - 1);
      var s := Iterate(0, half);
      IterateAdds(0, half, half);
      IterateClosedForm(s, half);
      assert Iterate(0, 2 * half) == 2 * (s * (2 * s + 1));
      odd := 2 * s * o + o + s;
      calc {
        2 * (s * (2 * s + 1));
        2 * ((half * (2 * o + 1)) * (2 * s + 1));
        (2 * half) * ((2 * o + 1) * (2 * s + 1));
        Pow2(k) * (2 * odd + 1);
      }
    }
  }

  lemma OddTimesOdd(a: int, b: int) returns (c: int)
    ensures (2 * a + 1) * (2 * b + 1) == 2 * c + 1
  {
    c := 2 * a * b + a + b;
  }

  /** 2^k steps move every integer by an odd multiple of 2^k. */
  lemma PeriodShift(k: nat, x: int) returns (c: int)
    ensures Iterate(x, Pow2(k)) == x + Pow2(k) * (2 * c + 1)
  {
    var o := PowerOfTwoSteps(k);
    IterateClosedForm(x, Pow2(k));
    c := OddTimesOdd(o, 2 * x);
    assert Pow2(k) * (2 * o + 1) * (4 * x + 1) == Pow2(k) * ((2 * o + 1) * (4 * x + 1));
  }

  lemma Regroup(y: int, r: int, c: int, half: int)
    requires r % 2 != 0
    ensures y + r * half + half * (2 * c + 1) == y + ((r + 2 * c + 1) / 2) * (2 * half)
  {
    var q := (r + 2 * c + 1) / 2;
    assert r + 2 * c + 1 == 2 * q;
    assert r * half + half * (2 * c + 1) == (2 * q) * half;
  }

  lemma Halve(r: int, half: int)
    requires r % 2 == 0
    ensures r * half == (r / 2) * (2 * half)
  {
    var q := r / 2;
    assert r == 2 * q;
    assert (2 * q) * half == q * (2 * half);
  }

  /** Full period: from every x every residue modulo 2^k is reached in fewer than 2^k steps. */
  lemma {:induction false} FullPeriod(k: nat, x: int, y: int) returns (n: nat, q: int)
    ensures n < Pow2(k) && Iterate(x, n) == y + q * Pow2(k)
  {
    if k == 0 {
      n, q := 0, x - y;
    } else {
      var half := Pow2(k - 1);
      var r;
      n, r := FullPeriod(k - 1, x, y);
      if r % 2 == 0 {
        Halve(r, half);
        q := r / 2;
      } else {
        IterateAdds(x, n, half);
        var c := PeriodShift(k - 1, Iterate(x, n));
        Regroup(y, r, c, half);
        n, q := n + half, (r + 2 * c + 1) / 2;
      }
    }
  }

  // ----- Hashes that are not negative visit every slot -----

  lemma {:induction false} PerturbVanishes(hash: int, n: nat)
    requires 0 <= hash <= n
    ensures Perturb(hash, n) == 0
  {
    PerturbFalls(hash, n);
  }

  lemma {:induction false} PerturbFalls(hash: int, n: nat)
    requires 0 <= hash
    ensures 0 <= Perturb(hash, n) <= (if hash <= n then 0 else hash - n)
  {
    if n > 0 { PerturbFalls(hash, n - 1); }
  }

  lemma MultipleOutside(d: int, c: int)
    requires c > 0
    ensures d >= 1 ==> d * c >= c
    ensures d <= -1 ==> d * c <= -c
  {
    if d >= 1 {
      assert (d - 1) * c >= 0;
    } else if d <= -1 {
      assert (-1 - d) * c >= 0;
    }
  }

  lemma EuclidUnique(q: int, r: int, q': int, r': int, c: int)
    requires 0 <= r < c && 0 <= r' < c && q * c + r == q' * c + r'
    ensures r == r'
  {
    assert (q - q') * c == r' - r;
    MultipleOutside(q - q', c);
  }

  lemma MaskShift(x: int, q: int, c: nat)
    requires c > 0
    ensures Mask(x + q * c, c) == Mask(x, c)
  {
    var y := x + q * c;
    assert x == (x / c) * c + Mask(x, c);
    assert y == (y / c) * c + Mask(y, c);
    hide Mask;
    assert (x / c + q) * c == (x / c) * c + q * c;
    EuclidUnique(y / c, Mask(y, c), x / c + q, Mask(x, c), c);
  }

  lemma MaskQuotient(x: int, c: nat) returns (q: int)
    requires c > 0
    ensures x == Mask(x, c) + q * c
  {
    q := x / c;
  }

  lemma MaskSmall(x: int, c: nat)
    requires 0 <= x < c
    ensures Mask(x, c) == x
  {}

  lemma MaskStep(x: int, c: nat)
    requires c > 0
    ensures Mask(5 * Mask(x, c) + 1, c) == Mask(5 * x + 1, c)
  {
    hide Mask;
    var q := MaskQuotient(x, c);
    MaskShift(5 * Mask(x, c) + 1, 5 * q, c);
    assert (5 * q) * c == 5 * (q * c);
  }

  /** Once the perturbation is used up the slots follow x -> 5x + 1. */
  lemma {:induction false} SlotFollows(hash: int, capacity: nat, start: nat, n: nat)
    requires capacity > 0 && 0 <= hash <= start
    ensures Slot(hash, capacity, start + n) == Mask(Iterate(Slot(hash, capacity, start), n), capacity)
  {
    hide Mask;
    if n == 0 {
      MaskSmall(Slot(hash, capacity, start), capacity);
    } else {
      SlotFollows(hash, capacity, start, n - 1);
      PerturbVanishes(hash, start + n - 1);
      MaskStep(Iterate(Slot(hash, capacity, start), n - 1), capacity);
    }
  }

  lemma VisitsAll(hash: int, k: nat, s: nat) returns (n: nat)
    requires hash >= 0 && s < Pow2(k)
    ensures Slot(hash, Pow2(k), n) == s && n < hash + Pow2(k)
  {
    hide Mask;
    var x := Slot(hash, Pow2(k), hash);
    var m, q := FullPeriod(k, x, s);
    MaskShift(s, q, Pow2(k));
    MaskSmall(s, Pow2(k));
    SlotFollows(hash, Pow2(k), hash, m);
    n := hash + m;
  }

  // ----- Negative hashes do not -----

  lemma {:induction false} PerturbSticks(hash: int, n: nat)
    requires hash < 0
    ensures (if -hash <= n then -1 else hash + n) <= Perturb(hash, n) <= -1
  {
    if n > 0 { PerturbSticks(hash, n - 1); }
  }

  /** A hash of at least -32^n sticks after n shifts. */
  lemma {:induction false} PerturbSticksBy(hash: int, m: nat, n: nat)
    requires -(Pow32(m) as int) <= hash < 0 && n <= m
    ensures -(Pow32(m - n) as int) <= Perturb(hash, n) <= -1
  {
    if n > 0 {
      PerturbSticksBy(hash, m, n - 1);
      assert Pow32(m - n + 1) == 32 * Pow32(m - n);
    }
  }

  ghost predicate StuckAfter(hash: int, t: nat) {
    Perturb(hash, t) == -1
  }

  lemma {:induction false} StaysStuck(hash: int, t: nat, n: nat)
    requires StuckAfter(hash, t) && n >= t
    ensures Perturb(hash, n) == -1
  {
    if n > t { StaysStuck(hash, t, n - 1); }
  }

  lemma MaskEven(x: int, half: nat)
    requires half > 0
    ensures Mask(x, 2 * half) % 2 == x % 2
  {
    hide Mask;
    var q := MaskQuotient(x, 2 * half);
    assert q * (2 * half) == 2 * (q * half);
  }

  /** From then on five times the slot: the parity of the slot no longer changes. */
  lemma {:induction false} ParitySticks(hash: int, half: nat, t: nat, n: nat)
    requires StuckAfter(hash, t) && half > 0 && n >= t
    ensures Slot(hash, 2 * half, n) % 2 == Slot(hash, 2 * half, t) % 2
  {
    hide Mask;
    if n > t {
      ParitySticks(hash, half, t, n - 1);
      StaysStuck(hash, t, n - 1);
      MaskEven(5 * Slot(hash, 2 * half, n - 1), half);
    }
  }

  ghost function EarlySlots(hash: int, capacity: nat, t: nat): (slots: set<nat>)
    requires capacity > 0
    ensures |slots| <= t
    ensures forall n :: 0 <= n < t ==> Slot(hash, capacity, n) in slots
  {
    if t == 0 then {} else EarlySlots(hash, capacity, t - 1) + {Slot(hash, capacity, t - 1)}
  }

  ghost function OfParity(p: nat, m: nat): (slots: set<nat>)
    ensures |slots| == m
    ensures forall s :: s in slots ==> s + 2 <= p + 2 * m && s % 2 == p % 2
  {
    if m == 0 then {} else OfParity(p, m - 1) + {p + 2 * (m - 1)}
  }

  lemma {:induction false} OfParityHolds(p: nat, m: nat, i: nat)
    requires i < m
    ensures p + 2 * i in OfParity(p, m)
  {
    if i < m - 1 { OfParityHolds(p, m - 1, i); }
  }

  lemma {:induction false} Pow2Grows(k: nat)
    ensures Pow2(k) > k
  {
    if k > 0 { Pow2Grows(k - 1); }
  }

  lemma {:induction false} Outnumbered<T>(a: set<T>, b: set<T>) returns (x: T)
    requires |a| > |b|
    ensures x in a && x !in b
  {
    x :| x in a;
    if x in b { x := Outnumbered(a - {x}, b - {x}); }
  }

  lemma LateSlotsMiss(hash: int, half: nat, t: nat, s: nat)
    requires StuckAfter(hash, t) && half > 0
    requires s % 2 != Slot(hash, 2 * half, t) % 2 && s !in EarlySlots(hash, 2 * half, t)
    ensures !Visits(hash, 2 * half, s)
  {
    hide Mask;
    forall n: nat ensures Slot(hash, 2 * half, n) != s {
      if n >= t { ParitySticks(hash, half, t, n); }
    }
  }

  lemma MissedSlot(hash: int, k: nat, t: nat) returns (s: nat)
    requires StuckAfter(hash, t) && k > 0 && Pow2(k - 1) > t
    ensures s < Pow2(k) && !Visits(hash, Pow2(k), s)
  {
    hide Visits, Slot, StuckAfter, EarlySlots, OfParity;
    var half := Pow2(k - 1);
    assert Pow2(k) == 2 * half;
    var p: nat := if Slot(hash, 2 * half, t) % 2 == 0 then 1 else 0;
    s := Outnumbered(OfParity(p, half), EarlySlots(hash, 2 * half, t));
    LateSlotsMiss(hash, half, t, s);
  }

  /** The exact condition for the documented guarantee, at every capacity the table can have. */
  lemma VisitsAllIffNotNegative(hash: int)
    ensures hash >= 0 <==> forall k: nat, s: nat :: k >= 3 && s < Pow2(k) ==> Visits(hash, Pow2(k), s)
  {
    if hash >= 0 {
      forall k: nat, s: nat | k >= 3 && s < Pow2(k) ensures Visits(hash, Pow2(k), s) {
        var n := VisitsAll(hash, k, s);
      }
    } else {
      var k: nat := -hash + 3;
      Pow2Grows(k - 1);
      PerturbSticks(hash, -hash);
      var s := MissedSlot(hash, k, -hash);
    }
  }

  /** In a table of the initial size, hash -8 only ever probes slots 0, 1 and 5. */
  lemma {:induction false} NegativeHashStuck(n: nat)
    ensures Slot(-8, 8, n) in {0, 1, 5}
    ensures n >= 2 ==> Slot(-8, 8, n) in {1, 5} && Perturb(-8, n) == -1
    ensures n == 1 ==> Slot(-8, 8, n) == 1 && Perturb(-8, n) == -1
  {
    if n == 1 {
      assert Slot(-8, 8, 0) == 0 && Perturb(-8, 0) == -8;
    } else if n > 1 {
      NegativeHashStuck(n - 1);
    }
  }
}
