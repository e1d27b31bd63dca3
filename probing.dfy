/**
  The probe sequence of the hashed leaves: open addressing with double
  hashing (Algorithm D of section 6.4 of Knuth, The Art of Computer
  Programming, volume 3).  A key's probes start at its home slot and step
  down, modulo the capacity, by a key-dependent amount.
*/
module Probing {
  import opened Words
  import opened Primes

  /** `key & 0x7fffffff`: the key with its sign bit cleared. */
  function HashOf(key: int): (h: int)
    ensures 0 <= h < 0x8000_0000
    ensures IsInt32(key) ==> h == if key >= 0 then key else key + 0x8000_0000
  {
    key % 0x8000_0000
  }

  /** The first slot probed for `key`. */
  function Home(key: int, capacity: int): (i: int)
    requires capacity >= 3
    ensures 0 <= i < capacity
  {
    HashOf(key) % capacity
  }

  /** The distance between two consecutive probes, `1 + hash % (capacity - 2)`. */
  function Step(key: int, capacity: int): (s: int)
    requires capacity >= 3
    ensures 1 <= s < capacity
  {
    1 + HashOf(key) % (capacity - 2)
  }

  /**
    The slot of probe number `t`: each probe is the previous one minus the
    step, brought back into range by adding the capacity when negative.
  */
  function Probe(key: int, capacity: int, t: nat): (i: int)
    requires capacity >= 3
    ensures 0 <= i < capacity
  {
    if t == 0 then Home(key, capacity)
    else
      var next := Probe(key, capacity, t - 1) - Step(key, capacity);
      if next < 0 then next + capacity else next
  }

  /** Two numbers that differ by a multiple of `m` leave the same remainder. */
  lemma SameRemainder(x: int, y: int, m: int, q: int)
    requires m > 0 && x - y == m * q
    ensures x % m == y % m
  {
    DivMod(x, m);
    DivMod(y, m);
    var d := x % m - y % m;
    assert d == m * (q - x / m + y / m);
    if q - x / m + y / m >= 1 {
      MulAtLeast(m, q - x / m + y / m);
    } else if q - x / m + y / m <= -1 {
      MulAtMost(m, q - x / m + y / m);
    }
  }

  /** Two numbers that leave the same remainder differ by a multiple of `m`. */
  lemma DifferenceOfSameRemainder(x: int, y: int, m: int)
    requires m > 0 && x % m == y % m
    ensures (x - y) % m == 0
  {
    DivMod(x, m);
    DivMod(y, m);
    assert x - y == m * (x / m - y / m);
    MultipleHasNoRemainder(m, x / m - y / m);
  }

  /** `t` steps of size `s` are one step more than `t - 1` of them. */
  lemma OneMoreStep(t: int, s: int)
    ensures t * s == (t - 1) * s + s
  {
  }

  /** The difference of two multiples of `s`. */
  lemma DifferenceOfMultiples(t1: int, t2: int, s: int)
    ensures t2 * s - t1 * s == s * (t2 - t1)
  {
  }

  /**
    One probe step on remainders: stepping down by `s` from the remainder of
    `a` and adding `m` when negative gives the remainder of `a - s`.
  */
  lemma StepDownRemainder(a: int, s: int, m: int)
    requires 0 < s < m
    ensures (if a % m - s < 0 then a % m - s + m else a % m - s) == (a - s) % m
  {
    var q := a / m;
    DivMod(a, m);
    var prev := a % m;
    var slot := if prev - s < 0 then prev - s + m else prev - s;
    var d := if prev - s < 0 then 1 - q else -q;
    assert slot - (a - s) == m * d;
    SameRemainder(slot, a - s, m, d);
    DivMod(slot, m);
    assert slot / m == 0;
  }

  /** Probe `t` is the home slot moved down by `t` steps, modulo the capacity. */
  lemma {:induction false} ProbeClosedForm(key: int, capacity: int, t: nat)
    requires capacity >= 3
    ensures Probe(key, capacity, t) == (Home(key, capacity) - t * Step(key, capacity)) % capacity
  {
    var h, s := Home(key, capacity), Step(key, capacity);
    if t == 0 {
      SmallRemainder(h, capacity);
    } else {
      var a := h - (t - 1) * s;
      assert Probe(key, capacity, t - 1) == a % capacity by {
        ProbeClosedForm(key, capacity, t - 1);
      }
      assert h - t * s == a - s by {
        OneMoreStep(t, s);
      }
      StepDownRemainder(a, s, capacity);
    }
  }

  /**
    Moving down from `h` by fewer than `m` steps of a size coprime with a
    prime `m` never returns to the same remainder.
  */
  lemma DistinctRemainders(h: int, s: int, m: int, t1: int, t2: int)
    requires IsPrimeNumber(m) && 0 < s < m && 0 <= t1 < t2 < m
    ensures (h - t1 * s) % m != (h - t2 * s) % m
  {
    var x, y := h - t1 * s, h - t2 * s;
    if x % m == y % m {
      assert (x - y) % m == 0 by {
        DifferenceOfSameRemainder(x, y, m);
      }
      assert x - y == s * (t2 - t1) by {
        DifferenceOfMultiples(t1, t2, s);
      }
      PrimeDividesFactor(m, s, t2 - t1);
      SmallRemainder(t2 - t1, m);
    }
  }

  /**
    With a prime capacity the first `capacity` probes of a key are pairwise
    distinct: the step is below the capacity, so it is coprime with it.
  */
  lemma ProbesDistinct(key: int, capacity: int, t1: nat, t2: nat)
    requires IsPrimeNumber(capacity) && capacity >= 3
    requires t1 < t2 < capacity
    ensures Probe(key, capacity, t1) != Probe(key, capacity, t2)
  {
    ProbeClosedForm(key, capacity, t1);
    ProbeClosedForm(key, capacity, t2);
    DistinctRemainders(Home(key, capacity), Step(key, capacity), capacity, t1, t2);
  }

  /** The slots taken by the first `n` probes of `key`. */
  ghost function Probed(key: int, capacity: int, n: nat): (slots: set<int>)
    requires capacity >= 3
    ensures forall i :: i in slots ==> 0 <= i < capacity
  {
    set t | 0 <= t < n :: Probe(key, capacity, t)
  }

  /** The slots of a page of `n` slots. */
  ghost function SlotRange(n: nat): (slots: set<int>)
    ensures forall i :: i in slots <==> 0 <= i < n
  {
    if n == 0 then {} else SlotRange(n - 1) + {n - 1}
  }

  lemma {:induction false} SlotRangeSize(n: nat)
    ensures |SlotRange(n)| == n
  {
    if n > 0 {
      assert |SlotRange(n - 1)| == n - 1 && n - 1 !in SlotRange(n - 1) by {
        SlotRangeSize(n - 1);
      }
    }
  }

  lemma {:induction false} ProbedSize(key: int, capacity: int, n: nat)
    requires IsPrimeNumber(capacity) && capacity >= 3 && n <= capacity
    ensures |Probed(key, capacity, n)| == n
  {
    if n > 0 {
      var earlier := Probed(key, capacity, n - 1);
      var last := Probe(key, capacity, n - 1);
      assert |earlier| == n - 1 by {
        ProbedSize(key, capacity, n - 1);
      }
      assert last !in earlier by {
        if last in earlier {
          var t :| 0 <= t < n - 1 && Probe(key, capacity, t) == last;
          ProbesDistinct(key, capacity, t, n - 1);
        }
      }
      assert Probed(key, capacity, n) == earlier + {last};
    }
  }

  /** A subset of a finite set of the same size is the whole set. */
  lemma FullSubset<T>(a: set<T>, b: set<T>)
    requires a <= b && |a| == |b|
    ensures a == b
  {
    assert b == (b - a) + a;
    assert (b - a) * a == {};
  }

  /**
    With a prime capacity the first `capacity` probes of any key visit
    every slot of the table.
  */
  lemma ProbesCoverTable(key: int, capacity: int, slot: int) returns (t: nat)
    requires IsPrimeNumber(capacity) && capacity >= 3 && 0 <= slot < capacity
    ensures t < capacity && Probe(key, capacity, t) == slot
  {
    ProbedSize(key, capacity, capacity);
    SlotRangeSize(capacity);
    FullSubset(Probed(key, capacity, capacity), SlotRange(capacity));
    assert slot in Probed(key, capacity, capacity);
    t :| 0 <= t < capacity && Probe(key, capacity, t) == slot;
  }
}
