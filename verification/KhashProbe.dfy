// The probe sequence of khash: start at hash & mask and step by 1, 2, 3, ...
// so the t-th bucket examined is hash + t(t+1)/2 modulo the number of buckets.
module KhashProbe {
  import opened Words

  function Tri(t: nat): nat {
    if t == 0 then 0 else Tri(t - 1) + t
  }

  function Probe(h: nat, t: nat, n: nat): (i: nat)
    requires n > 0
    ensures i < n
  {
    (h + Tri(t)) % n
  }

  lemma {:induction false} TriTwice(t: nat)
    ensures 2 * Tri(t) == t * (t + 1)
  {
    if t > 0 { TriTwice(t - 1); }
  }

  // The two expressions the code evaluates are steps of Probe: the start and the increment,
  // both in 32-bit arithmetic and masked.
  lemma ProbeStart(h: nat, n: nat, k: nat)
    requires n == Exp2(k)
    ensures And(h, n - 1) == Probe(h, 0, n)
  {
    MaskIsMod(h, k);
  }

  lemma ProbeNext(h: nat, t: nat, n: nat, k: nat)
    requires n == Exp2(k) && k <= 32
    ensures And(Add32(Probe(h, t, n), t + 1), n - 1) == Probe(h, t + 1, n)
  {
    var i := Probe(h, t, n);
    MaskIsMod(Add32(i, t + 1), k);
    WrapThenMod(i + t + 1, k);
    assert And(Add32(i, t + 1), n - 1) == (i + t + 1) % n;
    ModAdd(h + Tri(t), t + 1, n);
    assert h + Tri(t + 1) == h + Tri(t) + (t + 1);
  }

  lemma HalveOdd(x: int, y: int, w: int) returns (z: int)
    requires x % 2 == 1 && x * y == 2 * w
    ensures y == 2 * z && x * z == w
  {
    var h := x / 2;
    Distribute(h, y);
    z := w - h * y;
    Assoc(x, z);
  }

  // A power of two that divides x * y and shares no factor with the odd x divides y.
  lemma {:induction false} OddFactor(x: int, y: int, k: nat, q: int) returns (r: int)
    requires x % 2 == 1 && x * y == Exp2(k) * q
    ensures y == Exp2(k) * r
    decreases k
  {
    if k == 0 {
      r := y;
    } else {
      var m := Exp2(k - 1);
      MulAssoc(2, m, q);
      var z := HalveOdd(x, y, m * q);
      r := OddFactor(x, z, k - 1, q);
      MulAssoc(2, m, r);
    }
  }

  lemma Distribute(h: int, y: int)
    ensures (2 * h + 1) * y == 2 * (h * y) + y
  {
  }

  lemma Assoc(x: int, z: int)
    ensures x * (2 * z) == 2 * (x * z)
  {
  }

  // (b - a)(a + b + 1) is twice the distance between the a-th and b-th triangular numbers,
  // and exactly one of the two factors is odd.
  lemma TriDistance(a: nat, b: nat)
    requires a <= b
    ensures 2 * (Tri(b) - Tri(a)) == (b - a) * (a + b + 1)
  {
    TriTwice(a);
    TriTwice(b);
    assert (b - a) * (a + b + 1) == b * (b + 1) - a * (a + 1) by { Square(a, b); }
  }

  lemma Square(a: int, b: int)
    ensures (b - a) * (a + b + 1) == b * (b + 1) - a * (a + 1)
  {
  }

  // Two probes hit the same bucket exactly when 2n divides one of the two factors.
  lemma ProbeEqual(h: nat, a: nat, b: nat, k: nat)
    requires a <= b
    ensures Probe(h, a, Exp2(k)) == Probe(h, b, Exp2(k)) <==>
            (b - a) % Exp2(k + 1) == 0 || (a + b + 1) % Exp2(k + 1) == 0
  {
    TriDistance(a, b);
    ProbeDistance(h, a, b, Exp2(k));
    DoubleMod(Tri(b) - Tri(a), Exp2(k));
    Parities(a, b);
    OneFactorDivisible(b - a, a + b + 1, k + 1);
  }

  lemma ProbeDistance(h: nat, a: nat, b: nat, n: nat)
    requires n > 0
    ensures Probe(h, a, n) == Probe(h, b, n) <==> (Tri(b) - Tri(a)) % n == 0
  {
    hide Tri;
    SameMod(h + Tri(b), h + Tri(a), n);
    assert h + Tri(b) - (h + Tri(a)) == Tri(b) - Tri(a);
  }

  lemma Parities(a: nat, b: nat)
    ensures (b - a) % 2 != (a + b + 1) % 2
  {
  }

  lemma OddDivides(x: int, y: int, k: nat)
    requires x % 2 == 1 && (x * y) % Exp2(k) == 0
    ensures y % Exp2(k) == 0
  {
    var r := OddFactor(x, y, k, (x * y) / Exp2(k));
    DivModUnique(y, Exp2(k), r, 0);
  }

  // Of two factors of different parity, a power of two divides the product
  // exactly when it divides one of them.
  lemma OneFactorDivisible(u: int, v: int, k: nat)
    requires u % 2 != v % 2
    ensures (u * v) % Exp2(k) == 0 <==> u % Exp2(k) == 0 || v % Exp2(k) == 0
  {
    Commute(u, v);
    if u % Exp2(k) == 0 {
      MultipleMod(u, v, Exp2(k));
    } else if v % Exp2(k) == 0 {
      MultipleMod(v, u, Exp2(k));
    } else if (u * v) % Exp2(k) == 0 {
      if u % 2 == 1 { OddDivides(u, v, k); } else { OddDivides(v, u, k); }
    }
  }

  lemma Commute(x: int, y: int)
    ensures x * y == y * x
  {
  }

  lemma DoubleMod(d: int, n: int)
    requires n > 0
    ensures d % n == 0 <==> (2 * d) % (2 * n) == 0
  {
    var q, r := d / n, d % n;
    assert 2 * d == (2 * n) * q + 2 * r by { assert (2 * n) * q == 2 * (n * q); }
    DivModUnique(2 * d, 2 * n, q, 2 * r);
  }

  lemma MultipleMod(x: int, y: int, n: int)
    requires n > 0 && x % n == 0
    ensures (x * y) % n == 0
  {
    assert x * y == n * ((x / n) * y) by { assert x == n * (x / n); MulAssoc(n, x / n, y); }
    DivModUnique(x * y, n, (x / n) * y, 0);
  }

  lemma SmallMod(x: int, n: int)
    requires 0 <= x < n
    ensures x % n == x
  {
  }

  // The first n probes are pairwise distinct.
  lemma ProbesDistinct(h: nat, a: nat, b: nat, k: nat)
    requires a < b < Exp2(k)
    ensures Probe(h, a, Exp2(k)) != Probe(h, b, Exp2(k))
  {
    ProbeEqual(h, a, b, k);
    assert Exp2(k + 1) == 2 * Exp2(k);
    SmallMod(b - a, Exp2(k + 1));
    SmallMod(a + b + 1, Exp2(k + 1));
  }

  // The probe first comes back to its starting bucket at step 2n - 1.
  lemma FirstReturn(h: nat, t: nat, k: nat)
    requires 1 <= t <= 2 * Exp2(k) - 1
    ensures Probe(h, t, Exp2(k)) == Probe(h, 0, Exp2(k)) <==> t == 2 * Exp2(k) - 1
  {
    ProbeEqual(h, 0, t, k);
    assert Exp2(k + 1) == 2 * Exp2(k);
    SmallMod(t, Exp2(k + 1));
    if t + 1 < Exp2(k + 1) {
      SmallMod(t + 1, Exp2(k + 1));
    } else {
      DivModUnique(t + 1, Exp2(k + 1), 1, 0);
    }
  }

  // The buckets examined by the first t probes.
  function Visited(h: nat, t: nat, n: nat): set<nat>
    requires n > 0
  {
    set u | 0 <= u < t :: Probe(h, u, n)
  }

  lemma {:induction false} VisitedCount(h: nat, t: nat, k: nat)
    requires t <= Exp2(k)
    ensures |Visited(h, t, Exp2(k))| == t
  {
    hide Exp2, Probe;
    var n := Exp2(k);
    if t == 0 {
      assert Visited(h, 0, n) == {};
    } else {
      VisitedCount(h, t - 1, k);
      var p := Probe(h, t - 1, n);
      assert Visited(h, t, n) == Visited(h, t - 1, n) + {p};
      assert p !in Visited(h, t - 1, n) by {
        forall u | 0 <= u < t - 1 ensures Probe(h, u, n) != p { ProbesDistinct(h, u, t - 1, k); }
      }
    }
  }

  function Below(n: nat): (s: set<nat>)
    ensures forall i: nat :: i in s <==> i < n
    ensures |s| == n
  {
    if n == 0 then {} else Below(n - 1) + {n - 1}
  }

  lemma SubsetFull<T>(a: set<T>, b: set<T>)
    requires a <= b && |a| == |b|
    ensures a == b
  {
    assert |b| == |b - a| + |a|;
    assert b - a == {};
  }

  // The first n probes visit every bucket, so together with ProbesDistinct each exactly once.
  lemma ProbesCover(h: nat, i: nat, k: nat) returns (t: nat)
    requires i < Exp2(k)
    ensures t < Exp2(k) && Probe(h, t, Exp2(k)) == i
  {
    var n := Exp2(k);
    VisitedCount(h, n, k);
    SubsetFull(Visited(h, n, n), Below(n));
    assert i in Visited(h, n, n);
    t :| 0 <= t < n && Probe(h, t, n) == i;
  }

  // The wrap test `i == last` of kh_get and kh_put, taken after t steps, can only be true
  // when every bucket has already been examined.
  lemma WrapMeansAllExamined(h: nat, t: nat, i: nat, k: nat)
    requires t >= 1 && Probe(h, t, Exp2(k)) == Probe(h, 0, Exp2(k)) && i < Exp2(k)
    ensures exists u :: 0 <= u < t && Probe(h, u, Exp2(k)) == i
  {
    if t < 2 * Exp2(k) - 1 {
      FirstReturn(h, t, k);
    } else {
      var u := ProbesCover(h, i, k);
    }
  }
}
