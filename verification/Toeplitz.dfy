// The Toeplitz hash (toeplitz_hash.c): a 32-bit window slides along the key one bit per data
// bit, and the windows under the set data bits are xor-ed together.
module Toeplitz {
  // 1 << (7 - b), as MaskedBit shows: bit 0 of a byte is its most significant one.
  const BYTE_MASKS: seq<bv8> := [0x80, 0x40, 0x20, 0x10, 0x08, 0x04, 0x02, 0x01]

  predicate ByteBit(x: bv8, b: nat)
    requires b < 8
  {
    x & BYTE_MASKS[b] != 0
  }

  // The test of the code, with its shift.
  lemma MaskedBit(x: bv8, b: nat)
    requires b < 8
    ensures x & ((1 as bv8) << (7 - b)) != 0 <==> ByteBit(x, b)
  {
    assert b == 0 || b == 1 || b == 2 || b == 3 || b == 4 || b == 5 || b == 6 || b == 7;
  }

  // Bit p of a byte string, counting from the most significant bit of its first byte; zero beyond it.
  predicate StringBit(s: seq<bv8>, p: nat) {
    p / 8 < |s| && ByteBit(s[p / 8], p % 8)
  }

  // A bit position as a shift count.
  const COUNTS: seq<bv32> := [0, 1, 2, 3, 4, 5, 6, 7, 8, 9, 10, 11, 12, 13, 14, 15]

  function Count(j: nat): (r: bv32)
    requires j < 32
    ensures r < 32
  {
    var s := j % 16;
    assert s == 0 || s == 1 || s == 2 || s == 3 || s == 4 || s == 5 || s == 6 || s == 7 || s == 8
           || s == 9 || s == 10 || s == 11 || s == 12 || s == 13 || s == 14 || s == 15;
    if j < 16 then COUNTS[j] else 16 + COUNTS[j - 16]
  }

  // Bit j of a word, bit 0 being the most significant.
  predicate BitAt(w: bv32, j: bv32)
    requires j < 32
  {
    (w >> (31 - j)) & 1 != 0
  }

  predicate WordBit(w: bv32, j: nat)
    requires j < 32
  {
    BitAt(w, Count(j))
  }

  // w holds the 32 key bits from bit p on, zero-padded past the end of the key.
  ghost predicate IsWindow(w: bv32, key: seq<bv8>, p: nat) {
    forall j :: 0 <= j < 32 ==> (WordBit(w, j) <==> StringBit(key, p + j))
  }

  function SetBit(w: bv32, m: bv32): bv32
    requires m < 32
  {
    w | (0x8000_0000 >> m)
  }

  // The window of the key at bit p, assembled bit by bit.
  ghost function Assemble(key: seq<bv8>, p: nat, n: nat): bv32
    requires n <= 32
  {
    if n == 0 then 0
    else if StringBit(key, p + n - 1) then SetBit(Assemble(key, p, n - 1), Count(n - 1))
    else Assemble(key, p, n - 1)
  }

  ghost function Window(key: seq<bv8>, p: nat): bv32 {
    Assemble(key, p, 32)
  }

  function Xor(a: bv32, b: bv32): bv32 { a ^ b }

  // The hash as an algebraic sum: the xor of the windows at the set bits among the first n of the data.
  ghost function HashSum(key: seq<bv8>, data: seq<bv8>, n: nat): bv32 {
    if n == 0 then 0
    else if StringBit(data, n - 1) then Xor(HashSum(key, data, n - 1), Window(key, n - 1))
    else HashSum(key, data, n - 1)
  }

  // ---- bits of words ----

  lemma CountsNext(s: nat)
    requires s < 15
    ensures COUNTS[s + 1] == COUNTS[s] + 1
  {
    assert s == 0 || s == 1 || s == 2 || s == 3 || s == 4 || s == 5 || s == 6 || s == 7 || s == 8
           || s == 9 || s == 10 || s == 11 || s == 12 || s == 13 || s == 14;
  }

  lemma CountNext(j: nat)
    requires j < 31
    ensures Count(j + 1) == Count(j) + 1
  {
    if j < 15 {
      CountsNext(j);
      PlusOne(COUNTS[j], 0);
    } else if j == 15 {
      assert COUNTS[0] == 0 && COUNTS[15] == 15;
    } else {
      CountsNext(j - 16);
      PlusOne(COUNTS[j - 16], 16);
    }
  }

  lemma PlusOne(c: bv32, d: bv32)
    ensures d + (c + 1) == (d + c) + 1
  {
  }

  lemma CountLast()
    ensures Count(0) == 0 && Count(31) == 31
  {
  }

  lemma {:induction false} CountMono(i: nat, j: nat)
    requires i < j < 32
    ensures Count(i) < Count(j)
  {
    CountNext(j - 1);
    if i < j - 1 { CountMono(i, j - 1); }
  }

  lemma OrBitAt(w: bv32, m: bv32, j: bv32)
    requires m < 32 && j < 32
    ensures BitAt(SetBit(w, m), j) <==> BitAt(w, j) || j == m
  {
  }

  lemma ShiftBitAt(w: bv32, j: bv32)
    requires j < 31
    ensures BitAt(w << 1, j) <==> BitAt(w, j + 1)
    ensures BitAt((w << 1) | 1, j) <==> BitAt(w, j + 1)
  {
  }

  lemma ShiftLastBit(w: bv32)
    ensures !BitAt(w << 1, 31) && BitAt((w << 1) | 1, 31)
  {
  }

  lemma XorBitAt(a: bv32, b: bv32, j: bv32)
    requires j < 32
    ensures BitAt(Xor(a, b), j) <==> BitAt(a, j) != BitAt(b, j)
  {
  }

  lemma {:induction false} AssembleBits(key: seq<bv8>, p: nat, n: nat, j: nat)
    requires n <= 32 && j < 32
    ensures WordBit(Assemble(key, p, n), j) <==> j < n && StringBit(key, p + j)
  {
    hide BitAt, Count, StringBit, SetBit;
    if n == 0 {
      ZeroBit(Count(j));
    } else {
      AssembleBits(key, p, n - 1, j);
      OrBitAt(Assemble(key, p, n - 1), Count(n - 1), Count(j));
      if j < n - 1 { CountMono(j, n - 1); } else if n - 1 < j { CountMono(n - 1, j); }
    }
  }

  lemma ZeroBit(j: bv32)
    requires j < 32
    ensures !BitAt(0, j)
  {
  }

  lemma WindowBits(key: seq<bv8>, p: nat)
    ensures IsWindow(Window(key, p), key, p)
  {
    forall j | 0 <= j < 32 ensures WordBit(Window(key, p), j) <==> StringBit(key, p + j) {
      AssembleBits(key, p, 32, j);
    }
  }

  // A word is determined by its bits: two words that differ do so at the highest bit of their xor.
  lemma SameBits(a: bv32, b: bv32)
    requires forall j :: 0 <= j < 32 ==> (WordBit(a, j) <==> WordBit(b, j))
    ensures a == b
  {
    hide BitAt, Count;
    SameBitsFrom(a, b, 32);
    SameAll(a, b);
  }

  // The first n bits of the words agree: their xor, shifted down by the rest, is zero.
  lemma {:induction false} SameBitsFrom(a: bv32, b: bv32, n: nat)
    requires n <= 32
    requires forall j :: 0 <= j < n ==> (WordBit(a, j) <==> WordBit(b, j))
    ensures n == 0 || (a ^ b) >> (31 - Count(n - 1)) == 0
  {
    hide BitAt, Count;
    if n > 0 {
      SameBitsFrom(a, b, n - 1);
      assert WordBit(a, n - 1) <==> WordBit(b, n - 1);
      if n == 1 {
        CountLast();
        SameFirst(a, b);
      } else {
        CountNext(n - 2);
        SameNext(a, b, Count(n - 2));
      }
    }
  }

  lemma SameFirst(a: bv32, b: bv32)
    requires BitAt(a, 0) <==> BitAt(b, 0)
    ensures (a ^ b) >> 31 == 0
  {
  }

  lemma SameNext(a: bv32, b: bv32, c: bv32)
    requires c < 31 && (a ^ b) >> (31 - c) == 0 && (BitAt(a, c + 1) <==> BitAt(b, c + 1))
    ensures (a ^ b) >> (31 - (c + 1)) == 0
  {
  }

  lemma SameAll(a: bv32, b: bv32)
    requires (a ^ b) >> (31 - Count(31)) == 0
    ensures a == b
  {
    hide BitAt;
    CountLast();
  }

  lemma ShiftedBits(w: bv32, j: nat)
    requires j < 32
    ensures WordBit(w << 1, j) <==> j < 31 && WordBit(w, j + 1)
    ensures WordBit((w << 1) | 1, j) <==> j == 31 || WordBit(w, j + 1)
  {
    hide BitAt, Count;
    CountLast();
    if j < 31 {
      CountNext(j);
      CountMono(j, 31);
      ShiftBitAt(w, Count(j));
    } else {
      ShiftLastBit(w);
    }
  }

  lemma XorBit(a: bv32, b: bv32, j: nat)
    requires j < 32
    ensures WordBit(Xor(a, b), j) <==> WordBit(a, j) != WordBit(b, j)
  {
    hide BitAt, Count, Xor;
    XorBitAt(a, b, Count(j));
  }

  // v <<= 1, and v |= 1 if the next key bit is set.
  function ShiftIn(v: bv32, bit: bool): bv32 {
    if bit then (v << 1) | 1 else v << 1
  }

  lemma ShiftInBits(v: bv32, bit: bool, j: nat)
    requires j < 32
    ensures WordBit(ShiftIn(v, bit), j) <==> if j < 31 then WordBit(v, j + 1) else bit
  {
    hide WordBit;
    ShiftedBits(v, j);
  }

  // One step of the loop slides the window by one key bit.
  lemma SlideWindow(v: bv32, key: seq<bv8>, p: nat)
    requires v == Window(key, p)
    ensures ShiftIn(v, StringBit(key, p + 32)) == Window(key, p + 1)
  {
    hide WordBit, StringBit, Window, ShiftIn;
    var w := ShiftIn(v, StringBit(key, p + 32));
    WindowBits(key, p);
    WindowBits(key, p + 1);
    forall j | 0 <= j < 32 ensures WordBit(w, j) <==> WordBit(Window(key, p + 1), j) {
      ShiftInBits(v, StringBit(key, p + 32), j);
    }
    SameBits(w, Window(key, p + 1));
  }

  // ---- the loop ----

  // The four shifted key bytes the window starts from.
  function FirstWindow(key: seq<bv8>): bv32
    requires |key| >= 4
  {
    ((key[0] as bv32) << 24) + ((key[1] as bv32) << 16) + ((key[2] as bv32) << 8) + (key[3] as bv32)
  }

  lemma FirstWindowIsWindow(key: seq<bv8>)
    requires |key| >= 4
    ensures FirstWindow(key) == Window(key, 0)
  {
    WindowBits(key, 0);
    forall j | 0 <= j < 32 ensures WordBit(FirstWindow(key), j) <==> StringBit(key, j) {
      FirstWindowBit(key, j);
    }
    SameBits(FirstWindow(key), Window(key, 0));
  }

  lemma FirstWindowBit(key: seq<bv8>, j: nat)
    requires |key| >= 4 && j < 32
    ensures WordBit(FirstWindow(key), j) <==> StringBit(key, j)
  {
    var b := j % 8;
    assert b == 0 || b == 1 || b == 2 || b == 3 || b == 4 || b == 5 || b == 6 || b == 7;
    var q := j / 8;
    assert q == 0 || q == 1 || q == 2 || q == 3;
    assert j == 8 * q + b;
  }

  // toeplitz_hash: the sliding-window loop computes the algebraic sum.
  method ToeplitzHash(key: seq<bv8>, data: seq<bv8>) returns (hash: bv32)
    requires |key| >= 4
    ensures hash == HashSum(key, data, 8 * |data|)
  {
    hide Window, FirstWindow, ByteBit, HashSum, StringBit, Xor, ShiftIn;
    hash := 0;
    var v := FirstWindow(key);
    FirstWindowIsWindow(key);
    HashOfNothing(key, data);
    var i := 0;
    while i < |data|
      invariant 0 <= i <= |data|
      invariant v == Window(key, 8 * i) && hash == HashSum(key, data, 8 * i)
    {
      var b := 0;
      while b < 8
        invariant 0 <= b <= 8
        invariant v == Window(key, 8 * i + b) && hash == HashSum(key, data, 8 * i + b)
      {
        BitOfByte(data, i, b);
        BitOfByte(key, i + 4, b);
        SlideWindow(v, key, 8 * i + b);
        SumStep(key, data, 8 * i + b + 1, hash, v);
        MaskedBit(data[i], b);
        if data[i] & ((1 as bv8) << (7 - b)) != 0 {
          hash := Xor(hash, v);
        }
        if i + 4 < |key| { MaskedBit(key[i + 4], b); }
        v := ShiftIn(v, i + 4 < |key| && key[i + 4] & ((1 as bv8) << (7 - b)) != 0);
        b := b + 1;
      }
      i := i + 1;
    }
  }

  lemma BitOfByte(s: seq<bv8>, i: nat, b: nat)
    requires b < 8
    ensures StringBit(s, 8 * i + b) <==> i < |s| && ByteBit(s[i], b)
  {
    assert (8 * i + b) / 8 == i && (8 * i + b) % 8 == b;
  }

  // ---- what the sum means for each hash bit ----

  // Is the number of p below n with both data bit p and key bit p + j set odd?
  ghost predicate Parity(key: seq<bv8>, data: seq<bv8>, j: nat, n: nat) {
    n > 0 && (Parity(key, data, j, n - 1) != (StringBit(data, n - 1) && StringBit(key, n - 1 + j)))
  }

  lemma {:induction false} HashBit(key: seq<bv8>, data: seq<bv8>, n: nat, j: nat)
    requires j < 32
    ensures WordBit(HashSum(key, data, n), j) <==> Parity(key, data, j, n)
  {
    hide WordBit, StringBit, Window, HashSum, Xor;
    if n == 0 {
      HashOfNothing(key, data);
      ZeroWord(j);
    } else {
      HashBit(key, data, n - 1, j);
      WindowBits(key, n - 1);
      var a, w := HashSum(key, data, n - 1), Window(key, n - 1);
      XorBit(a, w, j);
      SumStep(key, data, n, a, w);
    }
  }

  lemma SumStep(key: seq<bv8>, data: seq<bv8>, n: nat, a: bv32, w: bv32)
    requires n > 0 && a == HashSum(key, data, n - 1) && w == Window(key, n - 1)
    ensures HashSum(key, data, n) == if StringBit(data, n - 1) then Xor(a, w) else a
  {
    hide StringBit, Window, Xor;
  }

  lemma ZeroWord(j: nat)
    requires j < 32
    ensures !WordBit(0, j)
  {
    ZeroBit(Count(j));
  }

  function XorBytes(a: seq<bv8>, b: seq<bv8>): seq<bv8>
    requires |a| == |b|
  {
    seq(|a|, i requires 0 <= i < |a| => a[i] ^ b[i])
  }

  lemma XorByteMask(x: bv8, y: bv8, m: bv8)
    requires m & (m - 1) == 0
    ensures (x ^ y) & m != 0 <==> (x & m != 0) != (y & m != 0)
  {
  }

  lemma XorByteBit(x: bv8, y: bv8, b: nat)
    requires b < 8
    ensures ByteBit(x ^ y, b) <==> ByteBit(x, b) != ByteBit(y, b)
  {
    assert b == 0 || b == 1 || b == 2 || b == 3 || b == 4 || b == 5 || b == 6 || b == 7;
    XorByteMask(x, y, BYTE_MASKS[b]);
  }

  lemma XorAssoc(a: bv32, b: bv32, c: bv32)
    ensures Xor(Xor(a, b), c) == Xor(a, Xor(b, c))
  {
  }

  lemma XorComm(a: bv32, b: bv32)
    ensures Xor(a, b) == Xor(b, a)
  {
  }

  lemma XorZero(a: bv32)
    ensures Xor(a, 0) == a && Xor(a, a) == 0
  {
  }

  lemma XorRegroup(a: bv32, b: bv32, w: bv32)
    ensures Xor(Xor(a, w), b) == Xor(Xor(a, b), w)
  {
    hide Xor;
    XorAssoc(a, w, b);
    XorAssoc(a, b, w);
    XorComm(b, w);
  }

  lemma XorSelected(x: bv32, y: bv32, w: bv32, p: bool, q: bool)
    ensures Xor(if p then Xor(x, w) else x, if q then Xor(y, w) else y)
         == if p != q then Xor(Xor(x, y), w) else Xor(x, y)
  {
    hide Xor;
    XorAssoc(x, y, w);
    XorRegroup(x, y, w);
    if p && q {
      XorAssoc(Xor(x, w), y, w);
      XorAssoc(Xor(x, y), w, w);
      XorZero(w);
      XorZero(Xor(x, y));
    }
  }

  // The hash is linear: hashing the xor of two inputs xors their hashes.
  lemma {:induction false} HashIsLinear(key: seq<bv8>, a: seq<bv8>, b: seq<bv8>, n: nat)
    requires |a| == |b|
    ensures HashSum(key, XorBytes(a, b), n) == Xor(HashSum(key, a, n), HashSum(key, b, n))
  {
    hide HashSum, Window, StringBit, XorBytes, Xor;
    var c := XorBytes(a, b);
    if n == 0 {
      HashOfNothing(key, a);
      HashOfNothing(key, b);
      HashOfNothing(key, c);
      XorZero(0);
    } else {
      HashIsLinear(key, a, b, n - 1);
      var x, y, w := HashSum(key, a, n - 1), HashSum(key, b, n - 1), Window(key, n - 1);
      SumStep(key, a, n, x, w);
      SumStep(key, b, n, y, w);
      SumStep(key, c, n, HashSum(key, c, n - 1), w);
      XorStringBit(a, b, n - 1);
      XorSelected(x, y, w, StringBit(a, n - 1), StringBit(b, n - 1));
    }
  }

  lemma XorStringBit(a: seq<bv8>, b: seq<bv8>, p: nat)
    requires |a| == |b|
    ensures StringBit(XorBytes(a, b), p) <==> StringBit(a, p) != StringBit(b, p)
  {
    hide ByteBit;
    if p / 8 < |a| { XorByteBit(a[p / 8], b[p / 8], p % 8); }
  }

  // ---- one-bit keys ----

  ghost predicate OneBitKey(key: seq<bv8>, m: nat) {
    forall p: nat :: StringBit(key, p) <==> p == m
  }

  lemma {:induction false} OneBitParity(key: seq<bv8>, data: seq<bv8>, m: nat, j: nat, n: nat)
    requires OneBitKey(key, m)
    ensures Parity(key, data, j, n) <==> j <= m < j + n && StringBit(data, m - j)
  {
    if n > 0 {
      OneBitParity(key, data, m, j, n - 1);
    }
  }

  // With a key whose only set bit is m, hash bit j is data bit m - j, or zero if there is none.
  lemma OneBitHash(key: seq<bv8>, data: seq<bv8>, m: nat, j: nat)
    requires OneBitKey(key, m) && j < 32
    ensures WordBit(HashSum(key, data, 8 * |data|), j) <==> j <= m && StringBit(data, m - j)
  {
    HashBit(key, data, 8 * |data|, j);
    OneBitParity(key, data, m, j, 8 * |data|);
  }

  function ZeroKey(): seq<bv8> { seq(40, _ => 0) }

  // The two keys of the file that carry a single bit.
  function RssHackDport(): seq<bv8> { ZeroKey()[14 := 0x01] }

  function RssHackSip16(): seq<bv8> { ZeroKey()[4 := 0x10] }

  lemma OneBitKeys()
    ensures OneBitKey(RssHackDport(), 119)
    ensures OneBitKey(RssHackSip16(), 35)
  {
    forall p: nat ensures StringBit(RssHackDport(), p) <==> p == 119 { OneByteKey(RssHackDport(), 14, 0x01, 7, p); }
    forall p: nat ensures StringBit(RssHackSip16(), p) <==> p == 35 { OneByteKey(RssHackSip16(), 4, 0x10, 3, p); }
  }

  lemma OneByteKey(key: seq<bv8>, at: nat, x: bv8, b: nat, p: nat)
    requires at < |key| == 40 && b < 8 && key == ZeroKey()[at := x]
    requires (x == 0x01 && b == 7) || (x == 0x10 && b == 3)
    ensures StringBit(key, p) <==> p == 8 * at + b
  {
    var c := p % 8;
    assert c == 0 || c == 1 || c == 2 || c == 3 || c == 4 || c == 5 || c == 6 || c == 7;
    assert p == 8 * (p / 8) + c;
  }

  // Hashing an address and port tuple of 12 bytes with rss_hack_dport gives exactly the last byte,
  // the low byte of the destination port, with its bits in reverse.
  lemma DportHash(data: seq<bv8>, j: nat)
    requires |data| == 12 && j < 32
    ensures WordBit(HashSum(RssHackDport(), data, 96), j) <==> j >= 24 && ByteBit(data[11], 31 - j)
  {
    OneBitKeys();
    OneBitHash(RssHackDport(), data, 119, j);
    if j >= 24 { assert (119 - j) / 8 == 11 && (119 - j) % 8 == 31 - j; }
  }

  // The port byte 0x1A, for instance, gives 0x58.
  lemma DportExample(data: seq<bv8>)
    requires |data| == 12 && data[11] == 0x1A
    ensures HashSum(RssHackDport(), data, 96) == 0x58
  {
    hide HashSum, RssHackDport;
    forall j | 0 <= j < 32 ensures WordBit(HashSum(RssHackDport(), data, 96), j) <==> WordBit(0x58, j) {
      DportHash(data, j);
      ReversedByte(j);
    }
    SameBits(HashSum(RssHackDport(), data, 96), 0x58);
  }

  lemma ReversedByte(j: nat)
    requires j < 32
    ensures WordBit(0x58, j) <==> j >= 24 && ByteBit(0x1A, 31 - j)
  {
    if j >= 24 {
      assert j == 24 || j == 25 || j == 26 || j == 27 || j == 28 || j == 29 || j == 30 || j == 31;
      CountsAre(j);
    } else {
      CountMono(j, 24);
      CountsAre(24);
      HighBitsClear(Count(j));
    }
  }

  lemma CountsAre(j: nat)
    requires 24 <= j < 32
    ensures Count(j) == 16 + COUNTS[j - 16]
  {
  }

  lemma HighBitsClear(c: bv32)
    requires c < 24
    ensures !BitAt(0x58, c)
  {
  }

  // With rss_hack_sip_16 the hash modulo 16 is the low half of the first byte in reverse.
  lemma Sip16Hash(data: seq<bv8>, j: nat)
    requires |data| == 12 && 28 <= j < 32
    ensures WordBit(HashSum(RssHackSip16(), data, 96), j) <==> ByteBit(data[0], 35 - j)
  {
    OneBitKeys();
    OneBitHash(RssHackSip16(), data, 35, j);
  }

  // ---- keys of period 16 ----

  ghost predicate Periodic(key: seq<bv8>) {
    forall p: nat :: p + 16 < 8 * |key| ==> (StringBit(key, p) <==> StringBit(key, p + 16))
  }

  // Hash bits 16 apart agree as long as no window runs off the key: the two halves are equal.
  lemma {:induction false} HalvesParity(key: seq<bv8>, data: seq<bv8>, j: nat, n: nat)
    requires Periodic(key) && j < 16 && n + 31 <= 8 * |key|
    ensures Parity(key, data, j, n) <==> Parity(key, data, j + 16, n)
  {
    if n > 0 { HalvesParity(key, data, j, n - 1); }
  }

  lemma HalvesEqual(key: seq<bv8>, data: seq<bv8>, j: nat)
    requires Periodic(key) && |data| + 4 <= |key| && j < 16
    ensures WordBit(HashSum(key, data, 8 * |data|), j) <==> WordBit(HashSum(key, data, 8 * |data|), j + 16)
  {
    HashBit(key, data, 8 * |data|, j);
    HashBit(key, data, 8 * |data|, j + 16);
    HalvesParity(key, data, j, 8 * |data|);
  }

  lemma {:induction false} PeriodicBit(key: seq<bv8>, p: nat, i: nat)
    requires Periodic(key) && p + 16 * i < 8 * |key|
    ensures StringBit(key, p + 16 * i) <==> StringBit(key, p)
  {
    if i > 0 {
      PeriodicBit(key, p, i - 1);
      assert p + 16 * (i - 1) + 16 == p + 16 * i;
    }
  }

  lemma PeriodicWindow(key: seq<bv8>, b: nat, i: nat)
    requires Periodic(key) && 16 * i + b + 31 < 8 * |key|
    ensures Window(key, 16 * i + b) == Window(key, b)
  {
    hide WordBit, StringBit, Window, Periodic;
    WindowBits(key, 16 * i + b);
    WindowBits(key, b);
    forall j | 0 <= j < 32 ensures WordBit(Window(key, 16 * i + b), j) <==> WordBit(Window(key, b), j) {
      PeriodicBit(key, b + j, i);
    }
    SameBits(Window(key, 16 * i + b), Window(key, b));
  }

  // A 16-bit word of the input, as its two bytes, and the input as words.
  datatype Word16 = Word16(hi: bv8, lo: bv8)

  function Words(data: seq<bv8>): (ws: seq<Word16>)
    requires |data| % 2 == 0
    ensures |ws| == |data| / 2
  {
    seq(|data| / 2, i requires 0 <= i < |data| / 2 => Word16(data[2 * i], data[2 * i + 1]))
  }

  // What one word contributes, wherever it stands.
  ghost function Contribution(key: seq<bv8>, w: Word16): bv32 {
    HashSum(key, [w.hi, w.lo], 16)
  }

  ghost function XorAll(key: seq<bv8>, ws: seq<Word16>): bv32 {
    if ws == [] then 0 else Xor(XorAll(key, ws[..|ws| - 1]), Contribution(key, ws[|ws| - 1]))
  }

  lemma {:induction false} WordStep(key: seq<bv8>, data: seq<bv8>, i: nat, b: nat)
    requires Periodic(key) && |data| % 2 == 0 && |data| + 4 <= |key| && i < |data| / 2 && b <= 16
    ensures HashSum(key, data, 16 * i + b)
         == Xor(HashSum(key, data, 16 * i), HashSum(key, [data[2 * i], data[2 * i + 1]], b))
  {
    hide HashSum, Window, StringBit, Periodic, Xor;
    var w := [data[2 * i], data[2 * i + 1]];
    if b == 0 {
      HashOfNothing(key, w);
      XorZero(HashSum(key, data, 16 * i));
    } else {
      var c := b - 1;
      WordStep(key, data, i, c);
      PeriodicWindow(key, c, i);
      WordStringBit(data, i, c);
      SumStep(key, data, 16 * i + b, HashSum(key, data, 16 * i + c), Window(key, c));
      SumStep(key, w, b, HashSum(key, w, c), Window(key, c));
      XorSelected(HashSum(key, data, 16 * i), HashSum(key, w, c), Window(key, c), false, StringBit(w, c));
    }
  }

  lemma WordStringBit(data: seq<bv8>, i: nat, c: nat)
    requires |data| % 2 == 0 && i < |data| / 2 && c < 16
    ensures StringBit(data, 16 * i + c) <==> StringBit([data[2 * i], data[2 * i + 1]], c)
  {
    hide ByteBit;
    assert (16 * i + c) / 8 == 2 * i + c / 8 && (16 * i + c) % 8 == c % 8;
  }

  lemma {:induction false} HashIsXorAll(key: seq<bv8>, data: seq<bv8>, i: nat)
    requires Periodic(key) && |data| % 2 == 0 && |data| + 4 <= |key| && i <= |data| / 2
    ensures HashSum(key, data, 16 * i) == XorAll(key, Words(data)[..i])
  {
    hide HashSum, Xor;
    if i == 0 {
      HashOfNothing(key, data);
    } else {
      HashIsXorAll(key, data, i - 1);
      WordStep(key, data, i - 1, 16);
      var ws := Words(data)[..i];
      assert ws[..|ws| - 1] == Words(data)[..i - 1];
      assert ws[|ws| - 1] == Word16(data[2 * (i - 1)], data[2 * (i - 1) + 1]);
    }
  }

  lemma HashOfNothing(key: seq<bv8>, data: seq<bv8>)
    ensures HashSum(key, data, 0) == 0
  {
  }

  lemma {:induction false} XorAllRemove(key: seq<bv8>, ws: seq<Word16>, k: nat)
    requires k < |ws|
    ensures XorAll(key, ws) == Xor(XorAll(key, ws[..k] + ws[k + 1..]), Contribution(key, ws[k]))
    decreases |ws|
  {
    hide Contribution, Xor;
    var n := |ws| - 1;
    if k == n {
      assert ws[..k] + ws[k + 1..] == ws[..n];
    } else {
      XorAllRemove(key, ws[..n], k);
      var rest := ws[..k] + ws[k + 1..];
      assert rest[..|rest| - 1] == ws[..n][..k] + ws[..n][k + 1..];
      assert rest[|rest| - 1] == ws[n];
      XorRegroup(XorAll(key, rest[..|rest| - 1]), Contribution(key, ws[n]), Contribution(key, ws[k]));
    }
  }

  // The xor over the words does not depend on their order.
  lemma {:induction false} XorAllPermutes(key: seq<bv8>, ws: seq<Word16>, ws': seq<Word16>)
    requires multiset(ws) == multiset(ws')
    ensures XorAll(key, ws) == XorAll(key, ws')
    decreases |ws|
  {
    hide Contribution, Xor;
    assert |multiset(ws)| == |ws| && |multiset(ws')| == |ws'|;
    if ws != [] {
      var n := |ws| - 1;
      var x := ws[n];
      assert ws == ws[..n] + [x];
      assert x in multiset(ws');
      var k :| 0 <= k < |ws'| && ws'[k] == x;
      assert ws' == ws'[..k] + [x] + ws'[k + 1..];
      var rest := ws'[..k] + ws'[k + 1..];
      assert multiset(ws) == multiset(ws[..n]) + multiset{x};
      assert multiset(ws') == multiset(ws'[..k]) + multiset{x} + multiset(ws'[k + 1..]);
      assert multiset(rest) == multiset(ws'[..k]) + multiset(ws'[k + 1..]);
      assert multiset(ws[..n]) == multiset(ws) - multiset{x};
      assert multiset(rest) == multiset(ws') - multiset{x};
      XorAllPermutes(key, ws[..n], ws'[..k] + ws'[k + 1..]);
      XorAllRemove(key, ws', k);
    }
  }

  // With a key of period 16, permuting the 16-bit words of an even-length input that leaves
  // the window room on the key does not change the hash.
  lemma HashIsSymmetric(key: seq<bv8>, data: seq<bv8>, data': seq<bv8>)
    requires Periodic(key) && |data| % 2 == 0 && |data'| % 2 == 0 && |data| + 4 <= |key| && |data'| + 4 <= |key|
    requires multiset(Words(data)) == multiset(Words(data'))
    ensures HashSum(key, data, 8 * |data|) == HashSum(key, data', 8 * |data'|)
  {
    hide HashSum, Periodic, XorAll;
    HashIsXorAll(key, data, |data| / 2);
    HashIsXorAll(key, data', |data'| / 2);
    assert Words(data)[..|data| / 2] == Words(data) && Words(data')[..|data'| / 2] == Words(data');
    XorAllPermutes(key, Words(data), Words(data'));
  }

  // rss_sym_key: the bytes 0x6D, 0x5A twenty times over.
  function RssSymKey(): seq<bv8> {
    seq(40, i => if i % 2 == 0 then 0x6D else 0x5A)
  }

  lemma SymKeyBytes()
    ensures |RssSymKey()| == 40 && forall i :: 0 <= i < 38 ==> RssSymKey()[i] == RssSymKey()[i + 2]
  {
  }

  lemma SymKeyPeriodic()
    ensures Periodic(RssSymKey())
  {
    hide ByteBit, RssSymKey;
    SymKeyBytes();
    forall p: nat | p + 16 < 320 ensures StringBit(RssSymKey(), p) <==> StringBit(RssSymKey(), p + 16) {
      assert (p + 16) / 8 == p / 8 + 2 && (p + 16) % 8 == p % 8;
    }
  }

  // Data whose only set bit is the first one hashes to the first 32 bits of the key.
  lemma {:induction false} FirstBitSum(key: seq<bv8>, n: nat)
    requires 1 <= n <= 8
    ensures HashSum(key, [0x80], n) == Window(key, 0)
  {
    hide Window, HashSum, StringBit;
    FirstBitOnly(n - 1);
    if n == 1 {
      HashOfNothing(key, [0x80]);
      SumStep(key, [0x80], 1, 0, Window(key, 0));
      assert Xor(0, Window(key, 0)) == Window(key, 0);
    } else {
      FirstBitSum(key, n - 1);
      SumStep(key, [0x80], n, Window(key, 0), Window(key, n - 1));
    }
  }

  lemma FirstBitOnly(p: nat)
    requires p < 8
    ensures StringBit([0x80], p) <==> p == 0
  {
    assert p == 0 || p == 1 || p == 2 || p == 3 || p == 4 || p == 5 || p == 6 || p == 7;
  }

  // With rss_sym_key that is 0x6D5A6D5A.
  lemma SymKeyHashes()
    ensures HashSum(RssSymKey(), [0x80], 8) == 0x6D5A_6D5A
  {
    hide Window, HashSum;
    FirstBitSum(RssSymKey(), 8);
    FirstWindowIsWindow(RssSymKey());
    SymKeyStart();
  }

  lemma SymKeyStart()
    ensures |RssSymKey()| >= 4 && FirstWindow(RssSymKey()) == 0x6D5A_6D5A
  {
  }

  // Both directions of a connection hash alike: the addresses and the ports may be exchanged.
  lemma FlowSymmetry(sip: seq<bv8>, dip: seq<bv8>, sport: seq<bv8>, dport: seq<bv8>)
    requires |sip| == |dip| == 4 && |sport| == |dport| == 2
    ensures HashSum(RssSymKey(), sip + dip + sport + dport, 96) == HashSum(RssSymKey(), dip + sip + dport + sport, 96)
  {
    hide HashSum, Periodic, Words;
    var a, b := sip + dip + sport + dport, dip + sip + dport + sport;
    SymKeyPeriodic();
    WordsOfFlow(sip, dip, sport, dport);
    WordsOfFlow(dip, sip, dport, sport);
    HashIsSymmetric(RssSymKey(), a, b);
  }

  lemma WordsConcat(x: seq<bv8>, y: seq<bv8>)
    requires |x| % 2 == 0 && |y| % 2 == 0
    ensures Words(x + y) == Words(x) + Words(y)
  {
  }

  lemma WordsOfFlow(a: seq<bv8>, b: seq<bv8>, c: seq<bv8>, d: seq<bv8>)
    requires |a| == |b| == 4 && |c| == |d| == 2
    ensures multiset(Words(a + b + c + d))
         == multiset(Words(a)) + multiset(Words(b)) + multiset(Words(c)) + multiset(Words(d))
  {
    WordsConcat(a, b);
    WordsConcat(a + b, c);
    WordsConcat(a + b + c, d);
  }
}
