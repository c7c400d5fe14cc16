// The kroundup32 macro (ConfCli.c): smear the top bit of x - 1 to the right by
// or-ing shifted copies, then add one, all in 32-bit arithmetic.
module KhashRound {
  import opened Words

  function Shr(x: nat, k: nat): nat {
    if k == 0 then x else Shr(x / 2, k - 1)
  }

  function Smear(y: nat, s: nat): nat {
    Or(y, Shr(y, s))
  }

  function KRoundUp32(x: nat): nat
    requires x < WORD
  {
    var y := (x + WORD - 1) % WORD;
    Add32(Smear(Smear(Smear(Smear(Smear(y, 1), 2), 4), 8), 16), 1)
  }

  // A number followed by j one bits; Ones(j) is j one bits.
  function Cat(q: nat, j: nat): nat {
    if j == 0 then q else 2 * Cat(q, j - 1) + 1
  }

  function Ones(j: nat): nat { Cat(0, j) }

  lemma {:induction false} OnesIsExp(j: nat)
    ensures Ones(j) == Exp2(j) - 1
  {
    if j > 0 { OnesIsExp(j - 1); }
  }

  lemma {:induction false} CatOnes(i: nat, j: nat)
    ensures Cat(Ones(i), j) == Ones(i + j)
  {
    if j > 0 { CatOnes(i, j - 1); }
  }

  lemma {:induction false} ShrOnes(i: nat, j: nat)
    ensures Shr(Ones(i + j), j) == Ones(i)
  {
    if j > 0 {
      assert Ones(i + j) / 2 == Ones(i + j - 1);
      ShrOnes(i, j - 1);
    }
  }

  lemma {:induction false} ShrShr(x: nat, a: nat, b: nat)
    ensures Shr(Shr(x, a), b) == Shr(x, a + b)
  {
    if a > 0 { ShrShr(x / 2, a - 1, b); }
  }

  lemma OrStep(a: nat, b: nat)
    ensures Or(a, b) / 2 == Or(a / 2, b / 2)
    ensures Or(a, b) % 2 == if a % 2 + b % 2 > 0 then 1 else 0
  {
  }

  lemma {:induction false} ShrOr(a: nat, b: nat, k: nat)
    ensures Shr(Or(a, b), k) == Or(Shr(a, k), Shr(b, k))
  {
    if k > 0 {
      OrStep(a, b);
      ShrOr(a / 2, b / 2, k - 1);
    }
  }

  // Or-ing in a block of ones overwrites exactly the low bits.
  lemma {:induction false} OrOnes(a: nat, j: nat)
    ensures Or(a, Ones(j)) == Cat(Shr(a, j), j)
  {
    if j > 0 {
      OrOnes(a / 2, j - 1);
      OrStep(a, Ones(j));
    }
  }

  lemma {:induction false} ShrZero(k: nat)
    ensures Shr(0, k) == 0
  {
    if k > 0 { ShrZero(k - 1); }
  }

  // y is a p-bit number whose top j bits are all ones.
  ghost predicate TopOnes(y: nat, p: nat, j: nat)
    requires j <= p
  {
    Shr(y, p - j) == Ones(j)
  }

  function Min(a: nat, b: nat): nat { if a <= b then a else b }

  // One smearing step doubles the run of leading ones, up to the whole number.
  lemma SmearDoubles(y: nat, p: nat, j: nat)
    requires j <= p && TopOnes(y, p, j)
    ensures TopOnes(Smear(y, j), p, Min(2 * j, p))
  {
    if 2 * j <= p {
      var k := p - 2 * j;
      ShrOr(y, Shr(y, j), k);
      ShrShr(y, j, k);
      ShrShr(y, k, j);
      OrOnes(Shr(y, k), j);
      CatOnes(j, j);
    } else {
      var k := p - j;
      ShrShr(y, k, j - k);
      ShrOnes(k, j - k);
      assert Shr(y, j) == Ones(k);
      OrOnes(y, k);
      CatOnes(j, k);
    }
  }

  lemma SmearStep(y: nat, p: nat, s: nat) returns (z: nat)
    requires TopOnes(y, p, Min(s, p))
    ensures z == Smear(y, s) && TopOnes(z, p, Min(2 * s, p))
  {
    z := Smear(y, s);
    if s <= p {
      SmearDoubles(y, p, s);
    } else {
      assert y == Ones(p);
      ShrShr(y, p, s - p);
      ShrOnes(0, p);
      ShrZero(s - p);
    }
  }

  // The position of the highest set bit bounds y between two powers of two.
  lemma {:induction false} Bits(y: nat) returns (p: nat)
    requires y > 0
    ensures p >= 1 && Exp2(p - 1) <= y < Exp2(p) && Shr(y, p - 1) == 1
  {
    if y == 1 {
      p := 1;
    } else {
      p := Bits(y / 2);
      p := p + 1;
    }
  }

  lemma SmearAll(y: nat, p: nat)
    requires 1 <= p <= 32 && Shr(y, p - 1) == 1
    ensures Smear(Smear(Smear(Smear(Smear(y, 1), 2), 4), 8), 16) == Exp2(p) - 1
  {
    assert TopOnes(y, p, 1) by { assert Ones(1) == 1; }
    var z := SmearStep(y, p, 1);
    z := SmearStep(z, p, 2);
    z := SmearStep(z, p, 4);
    z := SmearStep(z, p, 8);
    z := SmearStep(z, p, 16);
    OnesIsExp(p);
  }

  // For 1 <= x <= 2^31 the macro yields the least power of two that is at least x;
  // for the arguments 0 and above 2^31 the final increment wraps and it yields 0.
  lemma RoundUpSpec(x: nat) returns (k: nat)
    requires x < WORD
    ensures 1 <= x <= 0x8000_0000 ==>
              k <= 31 && KRoundUp32(x) == Exp2(k) && x <= Exp2(k) && (k > 0 ==> Exp2(k - 1) < x)
    ensures x == 0 || x > 0x8000_0000 ==> KRoundUp32(x) == 0
  {
    hide Smear;
    Exp2Values();
    var y := if x == 0 then WORD - 1 else x - 1;
    assert (x + WORD - 1) % WORD == y by { DivModUnique(x + WORD - 1, WORD, if x == 0 then 0 else 1, y); }
    if y == 0 {
      k := 0;
      SmearZero();
    } else {
      k := Bits(y);
      BitsWithin(y, k);
      SmearAll(y, k);
    }
  }

  lemma SmearZero()
    ensures Smear(Smear(Smear(Smear(Smear(0, 1), 2), 4), 8), 16) == 0
  {
    forall s: nat ensures Smear(0, s) == 0 { ShrZero(s); }
  }

  lemma BitsWithin(y: nat, p: nat)
    requires 1 <= p && y < WORD && Exp2(p - 1) <= y < Exp2(p)
    ensures p <= 32
    ensures p == 32 <==> y >= 0x8000_0000
    ensures p < 32 ==> Exp2(p) <= 0x8000_0000
    ensures p == 32 ==> Exp2(p) == WORD
  {
    Exp2Values();
    if p > 32 {
      Exp2Mono(32, p - 1);
    } else if p < 32 {
      Exp2Mono(p, 31);
    }
  }
}
