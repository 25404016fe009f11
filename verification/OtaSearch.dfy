/** Sequence numbers in components/app_update/esp_ota_ops.c, and the loop of
    esp_rewrite_ota_data that searches for the next one. */
module OtaSearch {

  newtype uint32 = x: int | 0 <= x < 0x1_0000_0000
  const UINT32_MAX: uint32 := 0xFFFF_FFFF

  // ----- sequence numbers -----

  lemma {:induction false} ModMultiple(a: nat, i: nat, n: nat)
    requires a < n
    ensures (a + i * n) % n == a
  {
    if i > 0 {
      ModMultiple(a, i - 1, n);
      assert a + i * n == (a + (i - 1) * n) + n;
      ModPlus(a + (i - 1) * n, n);
    }
  }

  lemma ModPlus(b: nat, n: nat)
    requires n > 0
    ensures (b + n) % n == b % n
  {
    var q := b / n;
    assert b + n == n * (q + 1) + b % n;
    DivUnique(b + n, n, q + 1, b % n);
  }

  lemma MulOrder(n: nat, a: nat, b: nat)
    requires a <= b
    ensures n * a <= n * b
  {
    assert n * b == n * a + n * (b - a);
  }

  lemma DivUnique(a: nat, n: nat, q: nat, r: nat)
    requires n > 0 && r < n && a == n * q + r
    ensures a / n == q && a % n == r
  {
    var q' := a / n;
    assert a == n * q' + a % n;
    assert n * (q' + 1) == n * q' + n && n * (q + 1) == n * q + n;
    if q' < q {
      MulOrder(n, q' + 1, q);
    } else if q < q' {
      MulOrder(n, q + 1, q');
    }
  }

  /** Reading back a number that is congruent to x + 1 gives slot x. */
  lemma ReadBack(r: nat, x: nat, n: nat)
    requires x < n && r >= 1 && r % n == (x + 1) % n
    ensures (r - 1) % n == x
  {
    var q := r / n;
    assert r == n * q + r % n;
    if x + 1 < n {
      DivUnique(x + 1, n, 0, x + 1);
      DivUnique(r - 1, n, q, x);
    } else {
      DivUnique(n, n, 1, 0);
      assert q >= 1;
      assert r - 1 == n * (q - 1) + (n - 1);
      DivUnique(r - 1, n, q - 1, n - 1);
    }
  }

  /** r is the least number from num on that selects slot x. */
  ghost predicate IsNext(r: nat, num: nat, x: nat, n: nat)
    requires n > 0
  {
    && num <= r < num + n && r % n == (x + 1) % n
    && forall k :: num <= k < r ==> k % n != (x + 1) % n
  }

  // Steps from residue b up to residue a.
  function Distance(a: nat, b: nat, n: nat): (d: nat)
    requires a < n && b < n
    ensures d < n
  {
    if a >= b then a - b else a + n - b
  }

  function NextSeq(num: nat, x: nat, n: nat): (r: nat)
    requires x < n
    ensures IsNext(r, num, x, n)
  {
    DistanceLeast(num, (x + 1) % n, n);
    num + Distance((x + 1) % n, num % n, n)
  }

  lemma DistanceLeast(num: nat, a: nat, n: nat)
    requires a < n
    ensures var d := Distance(a, num % n, n);
            (num + d) % n == a && forall k :: num <= k < num + d ==> k % n != a
  {
    var d := Distance(a, num % n, n);
    ModShift(num, d, n);
    forall k | num <= k < num + d ensures k % n != a {
      ModShift(num, k - num, n);
      assert num + (k - num) == k;
    }
  }

  lemma ModShift(num: nat, k: nat, n: nat)
    requires k < n
    ensures (num + k) % n == if num % n + k < n then num % n + k else num % n + k - n
  {
    var q, b := num / n, num % n;
    assert num == n * q + b;
    if b + k < n {
      DivUnique(num + k, n, q, b + k);
    } else {
      assert n * (q + 1) == n * q + n;
      DivUnique(num + k, n, q + 1, b + k - n);
    }
  }

  lemma {:induction false} NextUnique(r: nat, r': nat, num: nat, x: nat, n: nat)
    requires n > 0 && IsNext(r, num, x, n) && IsNext(r', num, x, n)
    ensures r == r'
  {
  }

  // ----- the search -----

  const TWO32: nat := 0x1_0000_0000

  /** The sum that the search loop compares, for counter i, in 32-bit arithmetic. */
  function Sum(x: nat, n: nat, i: nat): (r: nat)
    requires n > 0
    ensures r < TWO32
  {
    ((x + 1) % n + i * n) % TWO32
  }

  /** The search comes to an end. */
  ghost predicate Ends(num: nat, x: nat, n: nat)
    requires n > 0
  {
    exists i: nat :: num <= Sum(x, n, i)
  }

  ghost function FirstHit(num: nat, x: nat, n: nat, i: nat, last: nat): (r: nat)
    requires n > 0 && i <= last && num <= Sum(x, n, last)
    ensures i <= r <= last && num <= Sum(x, n, r) && forall j: nat :: i <= j < r ==> Sum(x, n, j) < num
    decreases last - i
  {
    if num <= Sum(x, n, i) then i else FirstHit(num, x, n, i + 1, last)
  }

  /** The counter with which it ends. */
  ghost function Hit(num: nat, x: nat, n: nat): (r: nat)
    requires n > 0 && Ends(num, x, n)
    ensures num <= Sum(x, n, r) && forall j: nat :: j < r ==> Sum(x, n, j) < num
  {
    var last: nat :| num <= Sum(x, n, last);
    FirstHit(num, x, n, 0, last)
  }

  lemma HitUnique(num: nat, x: nat, n: nat, i: nat)
    requires n > 0 && num <= Sum(x, n, i) && forall j: nat :: j < i ==> Sum(x, n, j) < num
    ensures Ends(num, x, n) && Hit(num, x, n) == i
  {
  }

  lemma SumPeriod(x: nat, n: nat, i: nat)
    requires n > 0
    ensures Sum(x, n, i) == Sum(x, n, i % TWO32)
  {
    var a, q, r := (x + 1) % n, i / TWO32, i % TWO32;
    assert i == TWO32 * q + r;
    assert a + i * n == (a + r * n) + (q * n) * TWO32;
    ModTimes(a + r * n, q * n, TWO32);
  }

  lemma HitSmall(num: nat, x: nat, n: nat)
    requires n > 0 && Ends(num, x, n)
    ensures Hit(num, x, n) < TWO32
  {
    var h := Hit(num, x, n);
    SumPeriod(x, n, h);
    assert !(h % TWO32 < h);
  }

  lemma ModTimes(b: nat, k: nat, n: nat)
    requires n > 0
    ensures (b + k * n) % n == b % n
  {
    var q := b / n;
    assert n * (q + k) == n * q + k * n;
    assert b + k * n == n * (q + k) + b % n;
    DivUnique(b + k * n, n, q + k, b % n);
  }

  /** The search loop of esp_rewrite_ota_data in 32-bit arithmetic. */
  method SearchSeq(num: uint32, x: uint32, n: uint32) returns (r: uint32)
    requires x < n && Ends(num as nat, x as nat, n as nat)
    ensures r as nat == Sum(x as nat, n as nat, Hit(num as nat, x as nat, n as nat))
  {
    var i: uint32 := 0;
    ghost var hit := Hit(num as nat, x as nat, n as nat);
    HitSmall(num as nat, x as nat, n as nat);
    while num > Wrapped(x, n, i)
      invariant i as nat <= hit
      decreases hit - i as nat
    {
      assert i as nat != hit;
      i := i + 1;
    }
    r := Wrapped(x, n, i);
    HitUnique(num as nat, x as nat, n as nat, i as nat);
  }

  // (x + 1) % n + i * n, wrapping around
  function Wrapped(x: uint32, n: uint32, i: uint32): (r: uint32)
    requires n > 0
    ensures r as nat == Sum(x as nat, n as nat, i as nat)
  {
    Sum(x as nat, n as nat, i as nat) as uint32
  }

  // As long as it does not wrap around, the sum goes through the numbers of the slot.
  lemma SumPlain(x: nat, n: nat, i: nat, q: nat)
    requires x < n && i <= q && n * q + (x + 1) % n < TWO32
    ensures Sum(x, n, i) == (x + 1) % n + i * n && Sum(x, n, i) % n == (x + 1) % n
    ensures i < q ==> Sum(x, n, i) < n * q + (x + 1) % n
    ensures i == q ==> Sum(x, n, i) == n * q + (x + 1) % n
  {
    MulOrder(n, i, q);
    if i < q { MulOrder(n, i + 1, q); }
    assert n * i == i * n && n * (i + 1) == i * n + n;
    ModMultiple((x + 1) % n, i, n);
  }

  /** As long as there is a number in 32 bits that selects the slot, the search finds the least. */
  lemma HitIsNext(num: nat, x: nat, n: nat)
    requires x < n && NextSeq(num, x, n) < TWO32
    ensures Ends(num, x, n) && Sum(x, n, Hit(num, x, n)) == NextSeq(num, x, n)
  {
    var next := NextSeq(num, x, n);
    var q := Quotient(next, (x + 1) % n, n);
    HitAt(num, x, n, q);
  }

  lemma Quotient(a: nat, r: nat, n: nat) returns (q: nat)
    requires n > 0 && a % n == r
    ensures a == n * q + r
  {
    q := a / n;
  }

  lemma HitAt(num: nat, x: nat, n: nat, q: nat)
    requires x < n && NextSeq(num, x, n) == n * q + (x + 1) % n < TWO32
    ensures Ends(num, x, n) && Sum(x, n, Hit(num, x, n)) == NextSeq(num, x, n)
  {
    SumPlain(x, n, q, q);
    forall j: nat | j < q ensures Sum(x, n, j) < num {
      SumPlain(x, n, j, q);
      NoneBefore(num, x, n, Sum(x, n, j));
    }
    HitUnique(num, x, n, q);
  }

  lemma NoneBefore(num: nat, x: nat, n: nat, v: nat)
    requires x < n && v < NextSeq(num, x, n) && v % n == (x + 1) % n
    ensures v < num
  {
  }

  /** If there is none, whatever the search ends with selects another slot. */
  lemma HitIsWrong(num: nat, x: nat, n: nat)
    requires x < n && Ends(num, x, n) && NextSeq(num, x, n) >= TWO32
    ensures Sum(x, n, Hit(num, x, n)) % n != (x + 1) % n
  {
  }

  // ----- when the search ends -----

  /** The greatest power of two that divides n. */
  function TwoPart(n: nat): (g: nat)
    requires n > 0
    ensures 0 < g <= n && n % g == 0 && (n / g) % 2 == 1
  {
    if n % 2 == 0 then
      var g := TwoPart(n / 2);
      Halves(n, g);
      2 * g
    else 1
  }

  lemma Halves(n: nat, g: nat)
    requires n % 2 == 0 && g > 0 && (n / 2) % g == 0 && n / 2 / g % 2 == 1
    ensures n % (2 * g) == 0 && n / (2 * g) == n / 2 / g
  {
    var m := n / 2 / g;
    assert n / 2 == g * m;
    assert n == 2 * (g * m) == (2 * g) * m;
    DivUnique(n, 2 * g, m, 0);
  }

  function Pow2(k: nat): nat {
    if k == 0 then 1 else 2 * Pow2(k - 1)
  }

  /** An odd number has an inverse modulo any power of two. */
  lemma {:induction false} OddInverse(m: nat, k: nat) returns (j: nat, c: nat)
    requires m % 2 == 1
    ensures m * j == 1 + c * Pow2(k)
  {
    if k == 0 {
      j, c := 1, m - 1;
    } else {
      j, c := OddInverse(m, k - 1);
      j, c := NextInverse(m, j, c, Pow2(k - 1));
    }
  }

  lemma NextInverse(m: nat, j: nat, c: nat, p: nat) returns (j': nat, c': nat)
    requires m % 2 == 1 && m * j == 1 + c * p
    ensures m * j' == 1 + c' * (2 * p)
  {
    j', c' := j, c;
    if c % 2 == 1 {
      Distribute(m, j, p, c);
      j', c' := j + p, c + m;
    }
    HalfTwice(c', p);
    c' := c' / 2;
  }

  lemma Distribute(m: nat, j: nat, p: nat, c: nat)
    ensures m * (j + p) == m * j + m * p && (c + m) * p == c * p + m * p
  {
  }

  lemma HalfTwice(c: nat, p: nat)
    requires c % 2 == 0
    ensures c * p == (c / 2) * (2 * p)
  {
    assert c == 2 * (c / 2);
  }

  lemma ResidueOfSlot(x: nat, n: nat, g: nat)
    requires n > 0 && g > 0 && n % g == 0
    ensures (x + 1) % n % g == (x + 1) % g
  {
    var s, d := x + 1, n / g;
    var q, r := s / n, s % n;
    assert n == g * d && s == n * q + r;
    assert n * q == (q * d) * g by { Regroup(g, d, q); }
    ModTimes(r, q * d, g);
  }

  // The residues modulo a divisor of both n and 2^32 stay the same in every round.
  lemma SumResidue(x: nat, n: nat, i: nat, g: nat)
    requires n > 0 && g > 0 && n % g == 0 && TWO32 % g == 0
    ensures Sum(x, n, i) % g == (x + 1) % g
  {
    var r, d, w := (x + 1) % n, n / g, TWO32 / g;
    var total := r + i * n;
    var laps := total / TWO32;
    assert n == g * d && TWO32 == g * w;
    ResidueOfSlot(x, n, g);
    assert total == r + (i * d) * g by { Regroup(g, d, i); }
    assert total == Sum(x, n, i) + (laps * w) * g by { Regroup(g, w, laps); }
    ModTimes(r, i * d, g);
    ModTimes(Sum(x, n, i), laps * w, g);
  }

  lemma Regroup(g: nat, d: nat, q: nat)
    ensures (g * d) * q == (q * d) * g && q * (g * d) == (q * d) * g
  {
  }

  lemma FourMore(k: nat)
    ensures Pow2(k + 4) == 16 * Pow2(k)
  {
    assert Pow2(k + 2) == 4 * Pow2(k);
  }

  lemma Pow232()
    ensures Pow2(32) == TWO32
  {
    FourMore(0);
    FourMore(4);
    FourMore(8);
    FourMore(12);
    FourMore(16);
    FourMore(20);
    FourMore(24);
    FourMore(28);
  }

  // The way from a up to v, made positive by whole rounds.
  lemma WayUp(v: nat, a: nat, g: nat)
    requires g > 0 && TWO32 % g == 0 && v % g == a % g
    ensures v + a * TWO32 - a >= 0 && (v + a * TWO32 - a) % g == 0
  {
    var v1, a1, w := v / g, a / g, TWO32 / g;
    assert v == g * v1 + a % g && a == g * a1 + a % g && TWO32 == g * w;
    assert a * TWO32 == g * (a * w) by { Regroup(g, w, a); }
    MulOrder(a, 1, w);
    assert a1 <= a by { MulOrder(a1, 1, g); }
    var q := v1 + a * w - a1;
    assert g * q == g * v1 + g * (a * w) - g * a1;
    DivUnique(v + a * TWO32 - a, g, q, 0);
  }

  lemma Spread(m: nat, j: nat, c: nat, g: nat, t: nat)
    requires m * j == 1 + c * TWO32
    ensures (j * t) * (g * m) == g * t + (t * c * g) * TWO32
  {
    assert (j * t) * (g * m) == (g * t) * (m * j);
    assert (g * t) * (1 + c * TWO32) == g * t + (g * t) * (c * TWO32);
    assert (g * t) * (c * TWO32) == (t * c * g) * TWO32;
  }

  lemma Arrives(a: nat, d: nat, v: nat, k: nat)
    requires v < TWO32 && d == v + a * TWO32 - a + k * TWO32
    ensures (a + d) % TWO32 == v
  {
    assert a + d == v + (a + k) * TWO32;
    ModTimes(v, a + k, TWO32);
  }

  // A number with the right residue is reached.
  lemma ResidueReached(v: nat, x: nat, n: nat) returns (i: nat)
    requires n > 0 && v < TWO32 && TWO32 % TwoPart(n) == 0 && v % TwoPart(n) == (x + 1) % TwoPart(n)
    ensures Sum(x, n, i) == v
  {
    var g, a := TwoPart(n), (x + 1) % n;
    ResidueOfSlot(x, n, g);
    WayUp(v, a, g);
    var d := v + a * TWO32 - a;
    var t := Quotient(d, 0, g);
    var k;
    i, k := Counter(n, g, t);
    Arrives(a, i * n, v, k);
  }

  // A counter whose multiple of n is g * t in 32 bits.
  lemma Counter(n: nat, g: nat, t: nat) returns (i: nat, k: nat)
    requires g > 0 && n % g == 0 && (n / g) % 2 == 1
    ensures i * n == g * t + k * TWO32
  {
    var j, c := OddInverse(n / g, 32);
    Pow232();
    Spread(n / g, j, c, g, t);
    assert g * (n / g) == n;
    i, k := j * t, t * c * g;
  }

  /** The search ends if and only if some number from num on has the residue of x + 1 modulo the
      greatest power of two in n. */
  lemma {:induction false} EndsExactly(num: nat, x: nat, n: nat)
    requires 0 < n < TWO32
    ensures Ends(num, x, n)
            <==> exists v :: num <= v < TWO32 && v % TwoPart(n) == (x + 1) % TwoPart(n)
  {
    var g := TwoPart(n);
    Pow232();
    TwoPartDivides(n, 32);
    if Ends(num, x, n) {
      SumResidue(x, n, Hit(num, x, n), g);
      var v := Sum(x, n, Hit(num, x, n));
      assert num <= v < TWO32 && v % g == (x + 1) % g;
    }
    if v :| num <= v < TWO32 && v % g == (x + 1) % g {
      var i := ResidueReached(v, x, n);
    }
  }

  lemma {:induction false} TwoPartDivides(n: nat, k: nat)
    requires 0 < n < Pow2(k)
    ensures Pow2(k) % TwoPart(n) == 0
    decreases k
  {
    var g := TwoPart(n);
    if n % 2 == 0 {
      TwoPartDivides(n / 2, k - 1);
      assert g == 2 * TwoPart(n / 2);
      var q := Pow2(k - 1) / TwoPart(n / 2);
      assert Pow2(k) == g * q;
      DivUnique(Pow2(k), g, q, 0);
    } else {
      DivUnique(Pow2(k), 1, Pow2(k), 0);
    }
  }

  lemma SearchedLeast(num: nat, a: nat, i: nat, n: nat)
    requires a < n && i * n + a < num + n
    ensures forall k :: num <= k < a + i * n ==> k % n != a
  {
    forall k | num <= k < a + i * n ensures k % n != a {
      NoneBetween(k, a, i, n);
    }
  }

  // Between two neighbours of the same residue class there is no third.
  lemma NoneBetween(k: nat, a: nat, i: nat, n: nat)
    requires a < n && a + i * n < k + n && k < a + i * n
    ensures k % n != a
  {
    if i == 0 {
      DivUnique(k, n, 0, k);
    } else if k < n * i {
      assert n * i == n * (i - 1) + n;
      DivUnique(k, n, i - 1, k - n * (i - 1));
    } else {
      DivUnique(k, n, i, k - n * i);
    }
  }

  /** If no number that selects the slot is left in 32 bits, and the number of slots divides
      2^32, the sum in the loop wraps around to numbers it has already seen, and the loop never
      ends. */
  lemma SearchStuck(num: uint32, x: nat, n: nat, i: nat)
    requires x < n && TWO32 % n == 0 && NextSeq(num as nat, x, n) > UINT32_MAX as nat
    ensures num as nat > Sum(x, n, i)
  {
    SumResidue(x, n, i, n);
  }

  // The sum with 7 slots and slot 5, on lap k.
  lemma SevenSum(i: nat, k: nat, v: nat)
    requires v < TWO32 && 6 + i * 7 == v + k * TWO32
    ensures Sum(5, 7, i) == v
  {
    ModTimes(v, k, TWO32);
  }

  /** With 7 slots it does end, on the second lap, and with a number that selects another slot. */
  lemma SevenSlots()
    ensures Ends(0xFFFF_FFFD, 5, 7) && Hit(0xFFFF_FFFD, 5, 7) == 1227133512
    ensures Sum(5, 7, 1227133512) == 0xFFFF_FFFE
  {
    forall j: nat | j < 1227133512 ensures Sum(5, 7, j) < 0xFFFF_FFFD {
      if j < 613566756 { SevenSum(j, 0, 6 + j * 7); } else { SevenSum(j, 1, 2 + (j - 613566756) * 7); }
    }
    SevenSum(1227133512, 1, 0xFFFF_FFFE);
    HitUnique(0xFFFF_FFFD, 5, 7, 1227133512);
  }
}
