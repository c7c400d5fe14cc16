// The IPv4 address bitmap (IPParserWithBitMap): one bit an address, set and cleared singly or in
// aligned blocks.
module IpBitmap {
  import opened Words

  const ONE_BITS: seq<bv8> := [0x01, 0x02, 0x04, 0x08, 0x10, 0x20, 0x40, 0x80]

  // The bit of position k in a byte.
  function Mask(k: nat): bv8
    requires k < 8
  {
    ONE_BITS[k]
  }

  // 0x1UL << k assigned to a byte, as ShiftedBit shows: nothing is left of the bit from k == 8 on.
  function OneBit(k: nat): bv8 {
    if k < 8 then Mask(k) else 0
  }

  predicate Has(x: bv8, k: nat)
    requires k < 8
  {
    x & Mask(k) != 0
  }

  // Is the bit of address a set?
  predicate Member(bytes: seq<bv8>, a: nat) {
    a / 8 < |bytes| && Has(bytes[a / 8], a % 8)
  }

  // The two read-modify-write forms of the code, `|= m` and `&= ~m`.
  function SetBits(x: bv8, m: bv8): bv8 { x | m }

  function ClearBits(x: bv8, m: bv8): bv8 { x & !m }

  // ---- bits of a byte ----

  // The shift the code performs, and what is left of it in a byte.
  function LowByte(k: nat): bv8
    requires k < 16
  {
    (((1 as bv16) << k) & 0xFF) as bv8
  }

  lemma ShiftedBit(k: nat)
    requires k < 16
    ensures LowByte(k) == OneBit(k)
  {
    assert k == 0 || k == 1 || k == 2 || k == 3 || k == 4 || k == 5 || k == 6 || k == 7 || k == 8
           || k == 9 || k == 10 || k == 11 || k == 12 || k == 13 || k == 14 || k == 15;
  }

  lemma MaskShape(k: nat)
    requires k < 8
    ensures Mask(k) != 0 && Mask(k) & (Mask(k) - 1) == 0
  {
    assert k == 0 || k == 1 || k == 2 || k == 3 || k == 4 || k == 5 || k == 6 || k == 7;
  }

  lemma MasksDiffer(k: nat, l: nat)
    requires k < 8 && l < 8
    ensures Mask(k) == Mask(l) <==> k == l
  {
    assert forall a, b :: 0 <= a < b < 8 ==> ONE_BITS[a] != ONE_BITS[b];
  }

  lemma SingleBits(m: bv8, l: bv8, x: bv8)
    requires m & (m - 1) == 0 && l & (l - 1) == 0 && m != 0 && l != 0
    ensures m == l ==> (x | m) & l != 0 && x & !m & l == 0
    ensures m != l ==> ((x | m) & l != 0 <==> x & l != 0) && (x & !m & l != 0 <==> x & l != 0)
  {
  }

  lemma NoBits(x: bv8)
    ensures x | 0 == x && x & !0 == x
  {
  }

  lemma AllBits(l: bv8)
    ensures (0xFF as bv8) & l == l && (0 as bv8) & l == 0
  {
  }

  // Setting or clearing one bit of a byte touches no other.
  lemma OneBitTouched(x: bv8, k: nat, l: nat)
    requires l < 8
    ensures Has(SetBits(x, OneBit(k)), l) <==> k == l || Has(x, l)
    ensures Has(ClearBits(x, OneBit(k)), l) <==> k != l && Has(x, l)
  {
    if k < 8 {
      hide Mask;
      MaskShape(k);
      MaskShape(l);
      MasksDiffer(k, l);
      SingleBits(Mask(k), Mask(l), x);
    } else {
      NoBits(x);
    }
  }

  // Address a is bit a % 8 of byte a / 8, counting from the least significant one.
  lemma MemberIsBit(bytes: seq<bv8>, a: nat)
    requires a / 8 < |bytes|
    ensures Member(bytes, a) <==> (bytes[a / 8] >> (a % 8)) & 1 == 1
  {
    BitOf(bytes[a / 8], a % 8);
  }

  lemma BitOf(x: bv8, k: nat)
    requires k < 8
    ensures Has(x, k) <==> (x >> k) & 1 == 1
  {
    assert k == 0 || k == 1 || k == 2 || k == 3 || k == 4 || k == 5 || k == 6 || k == 7;
  }

  // ---- the set of addresses ----

  // The addresses of an aligned block of 2^bits.
  ghost predicate InBlock(a: nat, pos: nat, nr: nat) { pos <= a < pos + nr }

  // bytes' holds what bytes does, with exactly the block set or cleared.
  ghost predicate BlockUpdated(bytes: seq<bv8>, bytes': seq<bv8>, pos: nat, nr: nat, on: bool) {
    && |bytes'| == |bytes|
    && forall a: nat :: a < 8 * |bytes| ==>
         (Member(bytes', a) <==> if InBlock(a, pos, nr) then on else Member(bytes, a))
  }

  // A byte update that leaves its other bits alone.
  ghost predicate BitsSet(x: bv8, y: bv8, ks: set<nat>, on: bool) {
    forall l: nat :: l < 8 ==> (Has(y, l) <==> if l in ks then on else Has(x, l))
  }

  lemma SetOne(x: bv8, k: nat)
    ensures BitsSet(x, SetBits(x, OneBit(k)), {k}, true) && BitsSet(x, ClearBits(x, OneBit(k)), {k}, false)
  {
    hide Has, OneBit, SetBits, ClearBits;
    forall l: nat | l < 8
      ensures Has(SetBits(x, OneBit(k)), l) <==> k == l || Has(x, l)
      ensures Has(ClearBits(x, OneBit(k)), l) <==> k != l && Has(x, l)
    {
      OneBitTouched(x, k, l);
    }
  }

  lemma ByteUpdate(before: seq<bv8>, y: bv8, pos: nat, on: bool)
    requires pos / 8 < |before| && BitsSet(before[pos / 8], y, {pos % 8}, on)
    ensures BlockUpdated(before, before[pos / 8 := y], pos, 1, on)
  {
    hide Has;
    forall a: nat | a < 8 * |before|
      ensures Member(before[pos / 8 := y], a) <==> if InBlock(a, pos, 1) then on else Member(before, a)
    {
      assert a == 8 * (a / 8) + a % 8 && pos == 8 * (pos / 8) + pos % 8;
    }
  }

  // bitmapOps: op > 0 sets, op == 0 clears, op < 0 queries; the value returned is the code's.
  method BitmapOps(ptr: array<bv8>, pos: nat, op: int) returns (bitVal: bv8)
    requires pos / 8 < ptr.Length
    modifies ptr
    ensures op >= 0 ==> BlockUpdated(old(ptr[..]), ptr[..], pos, 1, op > 0)
    ensures op < 0 ==> ptr[..] == old(ptr[..]) && (bitVal != 0 <==> Member(ptr[..], pos))
  {
    hide LowByte, OneBit, BlockUpdated, BitsSet, SetBits, ClearBits, Member;
    var offset := pos / 8;
    ghost var before := ptr[..];
    SetOne(before[offset], pos % 8);
    bitVal := LowByte(pos % 8);
    ShiftedBit(pos % 8);
    if op > 0 {
      ptr[offset] := SetBits(ptr[offset], bitVal);
      ByteUpdate(before, ptr[offset], pos, true);
      assert ptr[..] == before[offset := ptr[offset]];
    } else if op == 0 {
      ptr[offset] := ClearBits(ptr[offset], bitVal);
      ByteUpdate(before, ptr[offset], pos, false);
      assert ptr[..] == before[offset := ptr[offset]];
      bitVal := !bitVal;
    } else {
      QueryMember(before, pos);
      bitVal := bitVal & ptr[offset];
    }
  }

  lemma QueryMember(bytes: seq<bv8>, pos: nat)
    requires pos / 8 < |bytes|
    ensures OneBit(pos % 8) & bytes[pos / 8] != 0 <==> Member(bytes, pos)
  {
    QueryBit(bytes[pos / 8], pos % 8);
  }

  lemma QueryBit(x: bv8, k: nat)
    requires k < 8
    ensures OneBit(k) & x != 0 <==> Has(x, k)
  {
    hide Mask;
    AndCommutes(Mask(k), x);
  }

  lemma AndCommutes(x: bv8, y: bv8)
    ensures x & y == y & x
  {
  }

  // ---- blocks ----

  // The shift counts bitmapOpsBatch uses for blocks of 2 and 4: C groups `pos & 0x07 + k` as
  // `pos & (0x07 + k)`.
  function Shifts(pos: nat, nr: nat): seq<nat> {
    if nr == 2 then [And(pos, 7), And(pos, 7 + 1)] else [And(pos, 7), And(pos, 7 + 1), And(pos, 7 + 2), And(pos, 7 + 3)]
  }

  lemma AndHalves(a: nat, m: nat)
    ensures And(a, m) == 2 * And(a / 2, m / 2) + (a % 2) * (m % 2)
  {
  }

  // So the further bits are not the neighbours of the first one.
  lemma ShiftValues(pos: nat)
    ensures And(pos, 7) == pos % 8
    ensures var b8 := 8 * ((pos / 8) % 2);
            And(pos, 8) == b8 && And(pos, 9) == b8 + pos % 2 && And(pos, 10) == b8 + 2 * ((pos / 2) % 2)
  {
    hide And;
    var two, four := pos / 2, pos / 4;
    assert two / 2 == four && four / 2 == pos / 8;
    AndHalves(pos, 7); AndHalves(two, 3); AndHalves(four, 1); AndZero(pos / 8);
    AndHalves(pos / 8, 1); AndZero(pos / 8 / 2);
    AndHalves(four, 2); AndHalves(two, 4); AndHalves(two, 5); AndHalves(pos, 8); AndHalves(pos, 9); AndHalves(pos, 10);
  }

  lemma AndZero(a: nat)
    ensures And(a, 0) == 0
  {
  }

  // The addresses those blocks touch.
  ghost predicate Touched(a: nat, pos: nat, nr: nat) {
    a / 8 == pos / 8 && a % 8 in Shifts(pos, nr)
  }

  ghost predicate SmallUpdated(bytes: seq<bv8>, bytes': seq<bv8>, pos: nat, nr: nat, on: bool) {
    && |bytes'| == |bytes|
    && forall a: nat :: a < 8 * |bytes| ==>
         (Member(bytes', a) <==> if Touched(a, pos, nr) then on else Member(bytes, a))
  }

  lemma {:induction false} Pow2By8(k: nat)
    requires k >= 3
    ensures Exp2(k) % 8 == 0 && Exp2(k) >= 8
  {
    if k == 3 {
      assert Exp2(3) == 8;
    } else {
      Pow2By8(k - 1);
    }
  }

  lemma SmallPow2()
    ensures Exp2(0) == 1 && Exp2(1) == 2 && Exp2(2) == 4
  {
  }

  // The mask of several bits, in the order the code ors them together.
  function MaskOf(ks: seq<nat>): bv8 {
    if ks == [] then 0 else SetBits(MaskOf(ks[..|ks| - 1]), OneBit(ks[|ks| - 1]))
  }

  lemma {:induction false} SetMany(x: bv8, ks: seq<nat>, l: nat)
    requires l < 8
    ensures Has(SetBits(x, MaskOf(ks)), l) <==> l in ks || Has(x, l)
    ensures Has(ClearBits(x, MaskOf(ks)), l) <==> l !in ks && Has(x, l)
  {
    hide Has, OneBit;
    if ks == [] {
      NoBits(x);
    } else {
      hide SetBits, ClearBits;
      var n := |ks| - 1;
      SetMany(x, ks[..n], l);
      Regroup(x, MaskOf(ks[..n]), OneBit(ks[n]));
      OneBitTouched(SetBits(x, MaskOf(ks[..n])), ks[n], l);
      OneBitTouched(ClearBits(x, MaskOf(ks[..n])), ks[n], l);
      assert ks == ks[..n] + [ks[n]];
    }
  }

  lemma Regroup(x: bv8, m: bv8, b: bv8)
    ensures SetBits(x, SetBits(m, b)) == SetBits(SetBits(x, m), b)
    ensures ClearBits(x, SetBits(m, b)) == ClearBits(ClearBits(x, m), b)
  {
  }

  // bitmapOpsBatch for the exponents whose shift does not overflow an int.
  method BitmapOpsBatch(ptr: array<bv8>, pos: nat, bits: nat, op: bool)
    requires bits <= 30
    requires pos / 8 < ptr.Length && (bits >= 3 ==> 8 * (pos / 8) + Exp2(bits) <= 8 * ptr.Length)
    modifies ptr
    ensures bits == 0 ==> BlockUpdated(old(ptr[..]), ptr[..], pos, 1, op)
    ensures bits == 1 || bits == 2 ==> SmallUpdated(old(ptr[..]), ptr[..], pos, Exp2(bits), op)
    ensures bits >= 3 ==> BlockUpdated(old(ptr[..]), ptr[..], 8 * (pos / 8), Exp2(bits), op)
  {
    hide BlockUpdated, SmallUpdated, Exp2;
    var nr := Exp2(bits);
    SmallPow2();
    if bits == 0 {
      var v := BitmapOps(ptr, pos, if op then 1 else 0);
    } else if bits <= 2 {
      SmallBlock(ptr, pos, nr, op);
    } else {
      Pow2By8(bits);
      Memset(ptr, pos / 8, nr / 8, op);
      assert 8 * (nr / 8) == nr;
    }
  }

  // The branches for blocks of 2 and 4 addresses.
  method SmallBlock(ptr: array<bv8>, pos: nat, nr: nat, op: bool)
    requires (nr == 2 || nr == 4) && pos / 8 < ptr.Length
    modifies ptr
    ensures SmallUpdated(old(ptr[..]), ptr[..], pos, nr, op)
  {
    hide Has, OneBit, MaskOf, Shifts, SetBits, ClearBits;
    var bitVal := MaskOf(Shifts(pos, nr));
    ghost var before := ptr[..];
    var offset := pos / 8;
    ptr[offset] := if op then SetBits(ptr[offset], bitVal) else ClearBits(ptr[offset], bitVal);
    assert ptr[..] == before[offset := ptr[offset]];
    SmallByte(before, pos, nr, op);
  }

  lemma SmallByte(before: seq<bv8>, pos: nat, nr: nat, op: bool)
    requires pos / 8 < |before|
    ensures var m, x := MaskOf(Shifts(pos, nr)), before[pos / 8];
            SmallUpdated(before, before[pos / 8 := if op then SetBits(x, m) else ClearBits(x, m)], pos, nr, op)
  {
    hide Has, OneBit, MaskOf, Shifts, SetBits, ClearBits;
    forall a: nat | a < 8 * |before| && a / 8 == pos / 8 {
      SetMany(before[pos / 8], Shifts(pos, nr), a % 8);
    }
  }

  // memset of n bytes to 0xFF or 0 sets or clears the block of 8n addresses.
  method Memset(ptr: array<bv8>, offset: nat, n: nat, op: bool)
    requires offset + n <= ptr.Length
    modifies ptr
    ensures BlockUpdated(old(ptr[..]), ptr[..], 8 * offset, 8 * n, op)
  {
    hide Mask;
    ghost var before := ptr[..];
    var i := 0;
    while i < n
      invariant 0 <= i <= n
      invariant forall j :: 0 <= j < ptr.Length ==>
                  ptr[j] == if offset <= j < offset + i then (if op then 0xFF else 0) else before[j]
    {
      ptr[offset + i] := if op then 0xFF else 0;
      i := i + 1;
    }
    forall a: nat | a < 8 * ptr.Length
      ensures Member(ptr[..], a) <==> if InBlock(a, 8 * offset, 8 * n) then op else Member(before, a)
    {
      FilledBit(a % 8);
    }
  }

  lemma FilledBit(k: nat)
    requires k < 8
    ensures Has(0xFF, k) && !Has(0, k)
  {
    hide Mask;
    MaskShape(k);
    AllBits(Mask(k));
  }

  // For an aligned block of 2 or 4 the result is the block updated exactly when the rest of the block
  // was already so, and so was the first address of the byte if the grouping touches it.
  lemma SmallBlockIff(bytes: seq<bv8>, bytes': seq<bv8>, pos: nat, nr: nat, on: bool)
    requires (nr == 2 || nr == 4) && pos % nr == 0 && pos / 8 < |bytes|
    requires SmallUpdated(bytes, bytes', pos, nr, on)
    ensures BlockUpdated(bytes, bytes', pos, nr, on) <==>
            && (forall a: nat :: pos < a < pos + nr ==> Member(bytes, a) == on)
            && ((pos / 8) % 2 == 0 && pos % 8 != 0 ==> Member(bytes, 8 * (pos / 8)) == on)
  {
    hide Member, SmallUpdated, Touched;
    var first := 8 * (pos / 8);
    forall a: nat | a < 8 * |bytes|
      ensures Member(bytes', a) <==> if a == pos || (a == first && (pos / 8) % 2 == 0) then on else Member(bytes, a)
    {
      SmallAt(bytes, bytes', pos, nr, on, a);
    }
    assert |bytes'| == |bytes| by { SmallAt(bytes, bytes', pos, nr, on, pos); }
    SmallCompare(bytes, bytes', pos, nr, on, first);
  }

  // For instance two addresses added to a cleared map, as for a /31 prefix: the second one is missing.
  lemma PairOnClearedMap(bytes: seq<bv8>, bytes': seq<bv8>, pos: nat)
    requires forall i :: 0 <= i < |bytes| ==> bytes[i] == 0
    requires pos % 2 == 0 && pos / 8 < |bytes| && SmallUpdated(bytes, bytes', pos, 2, true)
    ensures Member(bytes', pos) && !Member(bytes', pos + 1) && !BlockUpdated(bytes, bytes', pos, 2, true)
  {
    hide Has, SmallUpdated;
    FilledBit(pos % 8);
    FilledBit((pos + 1) % 8);
    SmallAt(bytes, bytes', pos, 2, true, pos);
    SmallAt(bytes, bytes', pos, 2, true, pos + 1);
  }

  lemma SmallAt(bytes: seq<bv8>, bytes': seq<bv8>, pos: nat, nr: nat, on: bool, a: nat)
    requires (nr == 2 || nr == 4) && pos % nr == 0 && a < 8 * |bytes|
    requires SmallUpdated(bytes, bytes', pos, nr, on)
    ensures |bytes'| == |bytes|
    ensures Member(bytes', a) <==>
            if a == pos || (a == 8 * (pos / 8) && (pos / 8) % 2 == 0) then on else Member(bytes, a)
  {
    hide Member, Touched;
    TouchedAligned(a, pos, nr);
  }

  lemma SmallCompare(bytes: seq<bv8>, bytes': seq<bv8>, pos: nat, nr: nat, on: bool, first: nat)
    requires (nr == 2 || nr == 4) && |bytes'| == |bytes| && first == 8 * (pos / 8) && pos + nr <= 8 * |bytes|
    requires forall a: nat :: a < 8 * |bytes| ==>
      (Member(bytes', a) <==> if a == pos || (a == first && (pos / 8) % 2 == 0) then on else Member(bytes, a))
    ensures BlockUpdated(bytes, bytes', pos, nr, on) <==>
            && (forall a: nat :: pos < a < pos + nr ==> Member(bytes, a) == on)
            && ((pos / 8) % 2 == 0 && pos % 8 != 0 ==> Member(bytes, first) == on)
  {
    hide Member;
    if a: nat :| pos < a < pos + nr && Member(bytes, a) != on {
      assert !(Member(bytes', a) == on);
    } else if (pos / 8) % 2 == 0 && pos % 8 != 0 && Member(bytes, first) != on {
      assert Member(bytes', first) == on && first < pos;
    }
  }

  lemma TouchedSmall(a: nat, pos: nat, nr: nat)
    requires nr == 2 || nr == 4
    ensures Touched(a, pos, nr) <==>
            a / 8 == pos / 8 &&
            (a % 8 == pos % 8 ||
             ((pos / 8) % 2 == 0 &&
              (a % 8 == 0 || (nr == 4 && (a % 8 == pos % 2 || a % 8 == 2 * ((pos / 2) % 2))))))
  {
    hide And;
    ShiftValues(pos);
  }

  lemma TouchedAligned(a: nat, pos: nat, nr: nat)
    requires (nr == 2 || nr == 4) && pos % nr == 0
    ensures Touched(a, pos, nr) <==> a == pos || (a == 8 * (pos / 8) && (pos / 8) % 2 == 0)
  {
    hide Touched;
    TouchedSmall(a, pos, nr);
    ByteAndBit(a);
    ByteAndBit(pos);
    if nr == 4 { FourAligned(pos); }
  }

  lemma FourAligned(pos: nat)
    requires pos % 4 == 0
    ensures pos % 2 == 0 && (pos / 2) % 2 == 0
  {
    assert pos == 4 * (pos / 4);
  }

  // ---- sequences of updates ----

  // One update of 2^bits addresses from pos on.
  datatype Update = Update(pos: nat, bits: nat, on: bool)

  ghost predicate OnMap(u: Update, size: nat) {
    u.bits <= 30 && u.pos / 8 < size && (u.bits >= 3 ==> 8 * (u.pos / 8) + Exp2(u.bits) <= 8 * size)
  }

  // The addresses an update reaches.
  ghost predicate Covers(u: Update, a: nat) {
    if u.bits == 0 then InBlock(a, u.pos, 1)
    else if u.bits <= 2 then Touched(a, u.pos, Exp2(u.bits))
    else InBlock(a, 8 * (u.pos / 8), Exp2(u.bits))
  }

  // Apart from blocks of 2 and 4, an aligned update covers just its block.
  lemma RegularCovers(u: Update, a: nat)
    requires u.bits != 1 && u.bits != 2 && u.pos % Exp2(u.bits) == 0
    ensures Covers(u, a) <==> InBlock(a, u.pos, Exp2(u.bits))
  {
    if u.bits >= 3 { AlignedToByte(u.pos, u.bits); }
  }

  lemma AlignedToByte(pos: nat, bits: nat)
    requires pos % Exp2(bits) == 0 && bits >= 3
    ensures 8 * (pos / 8) == pos
  {
    Pow2By8(bits);
    var n, q := Exp2(bits), pos / Exp2(bits);
    assert pos == n * q && n == 8 * (n / 8);
    assert pos == 8 * ((n / 8) * q) by { MulAssoc(8, n / 8, q); }
  }

  // Is a in the set after the updates? The last one that covers it decides.
  ghost predicate Holds(us: seq<Update>, a: nat) {
    us != [] &&
    var u := us[|us| - 1];
    if Covers(u, a) then u.on else Holds(us[..|us| - 1], a)
  }

  // After any sequence of updates on a cleared map, an address is set exactly when the last update
  // that covers it set it.
  method Replay(map_: array<bv8>, us: seq<Update>)
    requires forall i :: 0 <= i < map_.Length ==> map_[i] == 0
    requires forall i :: 0 <= i < |us| ==> OnMap(us[i], map_.Length)
    modifies map_
    ensures forall a: nat :: a < 8 * map_.Length ==> (Member(map_[..], a) <==> Holds(us, a))
  {
    hide Has, Covers;
    forall a: nat | a < 8 * map_.Length ensures !Member(map_[..], a) {
      FilledBit(a % 8);
    }
    for n := 0 to |us|
      invariant forall a: nat :: a < 8 * map_.Length ==> (Member(map_[..], a) <==> Holds(us[..n], a))
    {
      var u := us[n];
      ghost var before := map_[..];
      Perform(map_, u);
      assert us[..n + 1][..n] == us[..n];
    }
    assert us[..|us|] == us;
  }

  method Perform(map_: array<bv8>, u: Update)
    requires OnMap(u, map_.Length)
    modifies map_
    ensures forall a: nat :: a < 8 * map_.Length ==>
              (Member(map_[..], a) <==> if Covers(u, a) then u.on else Member(old(map_[..]), a))
  {
    hide Member, Touched, InBlock, Exp2;
    BitmapOpsBatch(map_, u.pos, u.bits, u.on);
  }

  // hitIPSet: the query answers whether the address is in the set.
  method HitIpSet(map_: array<bv8>, host: nat) returns (ret: nat)
    requires host / 8 < map_.Length
    modifies map_
    ensures map_[..] == old(map_[..]) && ret == (if Member(map_[..], host) then 1 else 0)
  {
    var bits := BitmapOps(map_, host, -1);
    ret := if bits != 0 then 1 else 0;
  }

  // addIPstoBitmap: a single address, or an address with a prefix length.
  method AddAddress(map_: array<bv8>, host: nat)
    requires host / 8 < map_.Length
    modifies map_
    ensures BlockUpdated(old(map_[..]), map_[..], host, 1, true)
  {
    var v := BitmapOps(map_, host, 1);
  }

  // The address a prefix starts at.
  function PrefixStart(host: nat, bits: nat): nat {
    RemainderAtMost(host, Exp2(bits));
    host - host % Exp2(bits)
  }

  lemma RemainderAtMost(a: nat, n: nat)
    requires n > 0
    ensures a % n <= a
  {
    if a < n { DivModUnique(a, n, 0, a); }
  }

  // When the code reaches just the addresses of the prefix. Blocks of 8 and more are filled from the
  // byte of the address given, which must be the first of the prefix; for 2 and 4 the shifts happen
  // to come out right at one address in sixteen.
  predicate ReachesPrefix(host: nat, bits: nat) {
    if bits == 0 then true
    else if bits == 1 then host % 16 == 1
    else if bits == 2 then host % 16 == 3
    else host % Exp2(bits) < 8
  }

  lemma PrefixIff(host: nat, bits: nat)
    ensures (forall a: nat :: Covers(Update(host, bits, true), a) <==> InBlock(a, PrefixStart(host, bits), Exp2(bits)))
       <==> ReachesPrefix(host, bits)
  {
    SmallPow2();
    if bits == 1 || bits == 2 {
      SmallPrefixIff(host, bits);
    } else if bits >= 3 {
      FilledPrefixIff(host, bits);
    }
  }

  lemma FilledPrefixIff(host: nat, bits: nat)
    requires bits >= 3
    ensures (forall a: nat :: Covers(Update(host, bits, true), a) <==> InBlock(a, PrefixStart(host, bits), Exp2(bits)))
       <==> host % Exp2(bits) < 8
  {
    hide Exp2;
    var n, u, start, first := Exp2(bits), Update(host, bits, true), PrefixStart(host, bits), 8 * (host / 8);
    Pow2By8(bits);
    StartOnByte(host, bits);
    if host % n < 8 {
      assert first == start;
    } else {
      assert first > start;
      assert !Covers(u, start) && InBlock(start, start, n);
    }
  }

  lemma StartOnByte(host: nat, bits: nat)
    requires bits >= 3
    ensures 0 <= PrefixStart(host, bits) <= host && PrefixStart(host, bits) % 8 == 0
  {
    hide Exp2;
    Pow2By8(bits);
    var n, q := Exp2(bits), host / Exp2(bits);
    assert n == 8 * (n / 8) && PrefixStart(host, bits) == n * q;
    MulAssoc(8, n / 8, q);
  }

  lemma SmallPrefixIff(host: nat, bits: nat)
    requires bits == 1 || bits == 2
    ensures (forall a: nat :: Covers(Update(host, bits, true), a) <==> InBlock(a, PrefixStart(host, bits), Exp2(bits)))
       <==> ReachesPrefix(host, bits)
  {
    hide Touched, Exp2, InBlock;
    SmallPow2();
    var u, nr, start := Update(host, bits, true), Exp2(bits), PrefixStart(host, bits);
    if ReachesPrefix(host, bits) {
      forall a: nat ensures Covers(u, a) <==> InBlock(a, start, nr) { SmallPrefixReached(host, nr, a); }
    } else {
      var a := SmallPrefixMissed(host, nr);
      assert InBlock(a, start, nr) && !Covers(u, a);
    }
  }

  lemma SmallPrefixReached(host: nat, nr: nat, a: nat)
    requires (nr == 2 && host % 16 == 1) || (nr == 4 && host % 16 == 3)
    ensures 0 <= host - host % nr
    ensures Touched(a, host, nr) <==> InBlock(a, host - host % nr, nr)
  {
    hide Touched;
    TouchedSmall(a, host, nr);
    ByteAndBit(host);
    ByteAndBit(a);
    assert host == 8 * (host / 8) + nr - 1 && host % nr == nr - 1 by {
      if nr == 2 { assert host % 8 == 1; } else { assert host % 8 == 3; }
    }
  }

  lemma ByteAndBit(a: nat)
    ensures a == 8 * (a / 8) + a % 8 && a % 16 == 8 * ((a / 8) % 2) + a % 8
    ensures a % 2 == (a % 8) % 2 && a % 4 == (a % 8) % 4
  {
  }

  lemma AddressAt(b: nat, k: nat)
    requires k < 8
    ensures (8 * b + k) / 8 == b && (8 * b + k) % 8 == k
  {
  }

  // An address of the pair or the four that is not reached.
  lemma SmallPrefixMissed(host: nat, nr: nat) returns (a: nat)
    requires (nr == 2 && host % 16 != 1) || (nr == 4 && host % 16 != 3)
    ensures 0 <= host - host % nr
    ensures InBlock(a, host - host % nr, nr) && !Touched(a, host, nr)
  {
    if nr == 2 { a := PairMissed(host); } else { a := FourMissed(host); }
  }

  lemma PairMissed(host: nat) returns (a: nat)
    requires host % 16 != 1
    ensures InBlock(a, host - host % 2, 2) && !Touched(a, host, 2)
  {
    hide Touched;
    var p := host % 8;
    var k := if p % 2 == 0 then p + 1 else p - 1;
    ByteAndBit(host);
    AddressAt(host / 8, k);
    a := 8 * (host / 8) + k;
    TouchedSmall(a, host, 2);
  }

  lemma FourMissed(host: nat) returns (a: nat)
    requires host % 16 != 3
    ensures InBlock(a, host - host % 4, 4) && !Touched(a, host, 4)
  {
    hide Touched;
    var p := host % 8;
    var k := if p < 3 then 3 else if p == 3 then 0 else if p == 4 then 5 else 4;
    ByteAndBit(host);
    AddressAt(host / 8, k);
    a := 8 * (host / 8) + k;
    TouchedSmall(a, host, 4);
  }

  // For 10.0.0.9/24 the code sets 10.0.0.8 to 10.0.1.7.
  lemma PrefixMissed()
    ensures var host := 10 * 0x100_0000 + 9;
            && !ReachesPrefix(host, 8) && PrefixStart(host, 8) == host - 9
            && forall a: nat :: Covers(Update(host, 8, true), a) <==> host - 1 <= a < host + 255
  {
    Exp2Values();
    hide Exp2;
  }

  // addIPstoBitmap with a prefix length. If the address is one from which the code reaches its
  // prefix, exactly the prefix is added.
  method AddPrefix(map_: array<bv8>, host: nat, maskBits: nat)
    requires 2 <= maskBits <= 32 && OnMap(Update(host, 32 - maskBits, true), map_.Length)
    modifies map_
    ensures forall a: nat :: a < 8 * map_.Length ==>
              (Member(map_[..], a) <==> Covers(Update(host, 32 - maskBits, true), a) || Member(old(map_[..]), a))
    ensures ReachesPrefix(host, 32 - maskBits) ==>
              forall a: nat :: a < 8 * map_.Length ==>
                (Member(map_[..], a) <==>
                 InBlock(a, PrefixStart(host, 32 - maskBits), Exp2(32 - maskBits)) || Member(old(map_[..]), a))
  {
    hide Member, Covers, InBlock, ReachesPrefix;
    var u := Update(host, 32 - maskBits, true);
    Perform(map_, u);
    PrefixIff(host, 32 - maskBits);
  }

  // ---- the byte fill and the loop of single-bit operations ----

  method FillByBits(ptr: array<bv8>, pos: nat, nr: nat, on: bool)
    requires pos + nr <= 8 * ptr.Length
    modifies ptr
    ensures BlockUpdated(old(ptr[..]), ptr[..], pos, nr, on)
  {
    hide Member;
    for i := 0 to nr
      invariant BlockUpdated(old(ptr[..]), ptr[..], pos, i, on)
    {
      var v := BitmapOps(ptr, pos + i, if on then 1 else 0);
    }
  }

  // A byte is determined by its bits.
  lemma SameByte(x: bv8, y: bv8)
    requires forall k: nat :: k < 8 ==> (Has(x, k) <==> Has(y, k))
    ensures x == y
  {
    assert Has(x, 0) == Has(y, 0) && Has(x, 1) == Has(y, 1) && Has(x, 2) == Has(y, 2) && Has(x, 3) == Has(y, 3);
    assert Has(x, 4) == Has(y, 4) && Has(x, 5) == Has(y, 5) && Has(x, 6) == Has(y, 6) && Has(x, 7) == Has(y, 7);
  }

  // Whatever way a block is updated, bit by bit or by filling bytes, the bytes come out the same.
  lemma UpdateIsUnique(bytes: seq<bv8>, b1: seq<bv8>, b2: seq<bv8>, pos: nat, nr: nat, on: bool)
    requires BlockUpdated(bytes, b1, pos, nr, on) && BlockUpdated(bytes, b2, pos, nr, on)
    ensures b1 == b2
  {
    hide Has;
    forall i | 0 <= i < |bytes| ensures b1[i] == b2[i] {
      forall k: nat | k < 8 ensures Has(b1[i], k) <==> Has(b2[i], k) {
        assert (8 * i + k) / 8 == i && (8 * i + k) % 8 == k;
        assert Member(b1, 8 * i + k) == Member(b2, 8 * i + k);
      }
      SameByte(b1[i], b2[i]);
    }
  }
}
