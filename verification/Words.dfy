// Arithmetic on unsigned 32-bit machine words, as the C sources use it, stated
// over the mathematical naturals: powers of two, masking, or-ing and wrap-around.
module Words {
  const WORD: nat := 0x1_0000_0000

  function Exp2(k: nat): (r: nat)
    ensures r >= 1
  {
    if k == 0 then 1 else 2 * Exp2(k - 1)
  }

  // Unsigned addition on 32-bit words.
  function Add32(a: nat, b: nat): nat {
    (a + b) % WORD
  }

  // Bitwise `a & b` and `a | b`, bit by bit from the least significant end.
  function And(a: nat, b: nat): nat {
    if a == 0 || b == 0 then 0 else 2 * And(a / 2, b / 2) + (a % 2) * (b % 2)
  }

  function Or(a: nat, b: nat): nat {
    if a == 0 then b else if b == 0 then a
    else 2 * Or(a / 2, b / 2) + (if a % 2 + b % 2 > 0 then 1 else 0)
  }

  lemma MulAtLeast(n: int, d: int)
    requires n > 0
    ensures d >= 1 ==> n * d >= n
    ensures d <= -1 ==> n * d <= -n
  {
  }

  lemma MulAssoc(a: int, b: int, c: int)
    ensures (a * b) * c == a * (b * c)
  {
  }

  lemma DivModUnique(x: int, n: int, q: int, r: int)
    requires n > 0 && 0 <= r < n && x == n * q + r
    ensures x / n == q && x % n == r
  {
    var d := q - x / n;
    assert n * d == x % n - r;
    MulAtLeast(n, d);
  }

  lemma ModShift(x: int, n: int, q: int)
    requires n > 0
    ensures (x + n * q) % n == x % n
  {
    assert x + n * q == n * (x / n + q) + x % n;
    DivModUnique(x + n * q, n, x / n + q, x % n);
  }

  lemma ModAdd(a: int, b: int, n: int)
    requires n > 0
    ensures (a % n + b) % n == (a + b) % n
  {
    assert a + b == (a % n + b) + n * (a / n);
    ModShift(a % n + b, n, a / n);
  }

  // Two numbers leave the same remainder exactly when n divides their difference.
  lemma SameMod(a: int, b: int, n: int)
    requires n > 0
    ensures a % n == b % n <==> (a - b) % n == 0
  {
    if a % n == b % n {
      assert a - b == n * (a / n - b / n) + 0;
      DivModUnique(a - b, n, a / n - b / n, 0);
    }
    if (a - b) % n == 0 {
      assert a == b + n * ((a - b) / n);
      ModShift(b, n, (a - b) / n);
    }
  }

  lemma {:induction false} Exp2Add(a: nat, b: nat)
    ensures Exp2(a + b) == Exp2(a) * Exp2(b)
  {
    if a > 0 {
      Exp2Add(a - 1, b);
      assert Exp2(a + b) == 2 * (Exp2(a - 1) * Exp2(b)) == Exp2(a) * Exp2(b);
    }
  }

  lemma {:induction false} Exp2Mono(a: nat, b: nat)
    requires a <= b
    ensures Exp2(a) <= Exp2(b)
  {
    if a < b {
      Exp2Mono(a, b - 1);
    }
  }

  // The powers of two that fit a word, by their values.
  lemma Exp2Values()
    ensures Exp2(1) == 2 && Exp2(2) == 4 && Exp2(4) == 16 && Exp2(8) == 256 && Exp2(16) == 65536
    ensures Exp2(30) == 0x4000_0000 && Exp2(31) == 0x8000_0000 && Exp2(32) == WORD
  {
    assert Exp2(4) == 16;
    Exp2Add(4, 4);
    Exp2Add(8, 8);
    Exp2Add(16, 16);
    Exp2Add(1, 31);
    Exp2Add(1, 30);
  }

  // Splitting off the lowest bit of a number commutes with taking remainders of powers of two.
  lemma ModByHalves(a: nat, m: nat)
    requires m > 0
    ensures a % (2 * m) == 2 * ((a / 2) % m) + a % 2
  {
    var q, r := (a / 2) / m, (a / 2) % m;
    assert a == 2 * (m * q + r) + a % 2;
    assert (2 * m) * q == 2 * (m * q);
    DivModUnique(a, 2 * m, q, 2 * r + a % 2);
  }

  lemma AndStep(a: nat, m: nat)
    requires m > 0
    ensures And(a, 2 * m - 1) == 2 * And(a / 2, m - 1) + a % 2
  {
    assert (2 * m - 1) / 2 == m - 1 && (2 * m - 1) % 2 == 1;
  }

  lemma MaskStep(a: nat, m: nat, n: nat)
    requires m > 0 && n == 2 * m && And(a / 2, m - 1) == (a / 2) % m
    ensures And(a, n - 1) == a % n
  {
    hide And;
    ModByHalves(a, m);
    AndStep(a, m);
  }

  // Masking with 2^k - 1 is taking the remainder: why khash keeps n_buckets a power of two.
  lemma {:induction false} MaskIsMod(a: nat, k: nat)
    ensures And(a, Exp2(k) - 1) == a % Exp2(k)
  {
    if k == 0 {
      assert a % 1 == 0;
    } else {
      MaskIsMod(a / 2, k - 1);
      MaskStep(a, Exp2(k - 1), Exp2(k));
    }
  }

  lemma ModOfMod(x: nat, n: nat, c: nat)
    requires n > 0 && c > 0
    ensures n * c > 0 && (x % (n * c)) % n == x % n
  {
    MulAtLeast(n, c);
    var q, r := x / (n * c), x % (n * c);
    assert x == (n * c) * q + r;
    assert (n * c) * q == n * (c * q);
    ModShift(r, n, c * q);
  }

  // Wrapping at 2^32 first does not disturb a remainder modulo a smaller power of two.
  lemma WrapThenMod(x: nat, k: nat)
    requires k <= 32
    ensures (x % WORD) % Exp2(k) == x % Exp2(k)
  {
    Exp2Values();
    Exp2Add(k, 32 - k);
    ModOfMod(x, Exp2(k), Exp2(32 - k));
  }
}
