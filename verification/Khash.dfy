// The khash open-addressing table (ConfCli.c), as instantiated for maps.
module Khash {
  import opened Words
  import opened KhashRound
  import opened KhashProbe
  import opened KhashFlags
  import opened KhashLayout

  const MAX_BUCKETS: nat := 0x8000_0000

  // What kh_resize makes of the requested number of buckets.
  function Rounded(request: nat): nat
    requires request < WORD
  {
    var r := KRoundUp32(request); if r < 4 then 4 else r
  }

  lemma RoundedPow2(request: nat) returns (lg: nat)
    requires request < WORD
    ensures 2 <= lg <= 31 && Rounded(request) == Exp2(lg) && 4 <= Rounded(request) <= MAX_BUCKETS
    ensures Rounded(request) < 16 || Rounded(request) % 16 == 0
  {
    Exp2Values();
    var k := RoundUpSpec(request);
    if 1 <= request <= MAX_BUCKETS && k >= 2 {
      lg := k;
      Exp2Mono(2, k);
      Exp2Mono(k, 31);
    } else {
      lg := 2;
      if 1 <= request <= MAX_BUCKETS { Exp2Mono(k, 1); }
    }
    if lg >= 4 {
      Exp2Add(4, lg - 4);
      DivModUnique(Exp2(lg), 16, Exp2(lg - 4), 0);
    } else {
      Exp2Mono(lg, 3);
      assert Exp2(3) == 8;
    }
  }

  // The least power of two that is at least 4 and at least the request, for requests up to 2^31.
  lemma RoundedSpec(request: nat, k: nat)
    requires request < WORD
    ensures request <= 4 || request > MAX_BUCKETS ==> Rounded(request) == 4
    ensures 4 < request <= MAX_BUCKETS && k > 0 && Exp2(k - 1) < request <= Exp2(k) ==> Rounded(request) == Exp2(k)
    ensures request <= MAX_BUCKETS ==> request <= Rounded(request)
  {
    hide KRoundUp32;
    Exp2Values();
    var r := RoundUpSpec(request);
    if 1 <= request <= 4 && r > 2 { Exp2Mono(2, r - 1); }
    if 4 < request <= MAX_BUCKETS && k > 0 && Exp2(k - 1) < request <= Exp2(k) {
      if k > 31 { Exp2Mono(31, k - 1); }
      LeastPow2(request, k);
    }
  }

  // What the two requests made by kh_put round to, and that the keys of a full table fit both.
  lemma RequestsFit(lg: nat)
    requires 2 <= lg <= 31
    ensures 4 <= Exp2(lg) <= MAX_BUCKETS
    ensures Rounded(Exp2(lg) - 1) == Exp2(lg) && Exp2(lg) <= 2 * Upper(Exp2(lg))
    ensures Exp2(lg) < MAX_BUCKETS ==>
              Rounded(Exp2(lg) + 1) == 2 * Exp2(lg) && Exp2(lg) < Upper(2 * Exp2(lg))
  {
    hide KRoundUp32;
    Exp2Range(lg);
    LeastPow2(Exp2(lg) - 1, lg);
    if lg < 31 {
      Exp2Range(lg + 1);
      LeastPow2(Exp2(lg) + 1, lg + 1);
    }
  }

  lemma Exp2Range(lg: nat)
    requires 2 <= lg <= 31
    ensures 4 <= Exp2(lg) <= MAX_BUCKETS && Exp2(lg) == 2 * Exp2(lg - 1)
    ensures Exp2(lg) == MAX_BUCKETS <==> lg == 31
  {
    Exp2Values();
    Exp2Mono(2, lg);
    if lg < 31 { Exp2Mono(lg, 30); }
  }

  lemma FirstRequestFits()
    ensures Rounded(1) == 4 && Upper(4) == 3
  {
    var k := RoundUpSpec(1);
  }

  lemma LeastPow2(x: nat, k: nat)
    requires 1 <= k <= 31 && 1 <= x <= MAX_BUCKETS && Exp2(k - 1) < x <= Exp2(k)
    ensures KRoundUp32(x) == Exp2(k)
  {
    var r := RoundUpSpec(x);
    if r < k {
      Exp2Mono(r, k - 1);
    } else if r > k {
      Exp2Mono(k, r - 1);
    }
  }

  lemma UpperBelow(n: nat)
    requires n >= 4
    ensures Upper(n) < n
  {
  }

  lemma NoImage<K, V>(vals: seq<V>)
    ensures Image<K, V>(map[], vals) == map[]
  {
  }

  method Realloc<T(0)>(a: array<T>, n: nat) returns (b: array<T>)
    ensures fresh(b) && b.Length == n
    ensures forall i :: 0 <= i < n && i < a.Length ==> b[i] == a[i]
  {
    b := new T[n];
    var i := 0;
    while i < n && i < a.Length
      invariant 0 <= i <= n && i <= a.Length
      invariant forall j :: 0 <= j < i ==> b[j] == a[j]
    {
      b[i] := a[i];
      i := i + 1;
    }
  }

  class Table<K(==, 0, !new), V(0)> {
    const hash: K -> nat
    var nBuckets: nat
    var size: nat
    var nOccupied: nat
    var upperBound: nat
    var flags: FlagArray?
    var keys: array<K>
    var vals: array<V>

    ghost var lg: nat            // nBuckets == 2^lg once buckets exist
    ghost var pos: map<K, nat>   // the bucket of each key

    ghost function Repr(): set<object>
      reads this
    {
      if flags == null then {this, keys, vals} else var f: FlagArray := flags; {this, keys, vals, f, f.words}
    }

    ghost function FlagRepr(): set<object>
      reads this
    {
      if flags == null then {} else var f: FlagArray := flags; {f, f.words}
    }

    // The map the table stands for.
    ghost function Contents(): map<K, V>
      reads this, vals
    {
      Image(pos, vals[..])
    }

    // The key and value arrays and a flag array are four different blocks of memory.
    ghost predicate Apart(f: FlagArray)
      reads this
    {
      && keys as object != vals as object
      && f.words as object != keys as object && f.words as object != vals as object
    }

    ghost predicate Valid()
      reads this, Repr()
    {
      if flags == null then
        nBuckets == size == nOccupied == upperBound == 0 && pos == map[]
        && keys.Length == vals.Length == 0
      else
        && Apart(flags)
        && 2 <= lg <= 31 && nBuckets == Exp2(lg) && 4 <= nBuckets <= MAX_BUCKETS
        && flags.Valid() && |flags.view| == keys.Length == vals.Length == nBuckets
        && InOrder(flags.view, keys[..], hash, pos, size, nOccupied)
        && nOccupied <= upperBound == Upper(nBuckets) < nBuckets
    }

    // kh_init: everything zero.
    constructor (hash: K -> nat)
      ensures Valid() && fresh(Repr()) && Contents() == map[] && nBuckets == 0
      ensures this.hash == hash
    {
      this.hash := hash;
      nBuckets, size, nOccupied, upperBound := 0, 0, 0, 0;
      flags := null;
      keys := new K[0];
      vals := new V[0];
      lg, pos := 0, map[];
    }

    // kh_size counts the keys; and there is always an empty bucket left to stop a probe.
    lemma Counts()
      requires Valid()
      ensures size == |Contents()|
      ensures nBuckets > 0 ==> size <= nOccupied <= upperBound < nBuckets
      ensures nBuckets > 0 ==> 100 * upperBound <= 77 * nBuckets + 50 < 100 * upperBound + 100
    {
      if flags != null {
        UpperIsNearest(nBuckets);
        ImageKeys(flags.view, keys[..], vals[..], hash, pos, size, nOccupied);
      }
    }

    // kh_get
    method Get(key: K) returns (i: nat)
      requires Valid()
      ensures i < nBuckets <==> key in Contents()
      ensures i < nBuckets ==> IsLive(i)
      ensures i < nBuckets ==> i < keys.Length == vals.Length && keys[i] == key && vals[i] == Contents()[key]
      ensures key !in Contents() ==> i == nBuckets
    {
      hide And, Add32, Probe, Exp2, Upper, InOrder, Image, Scanned, Reaches;
      if flags == null {
        NoImage<K, V>(vals[..]);
        return 0;
      }
      ghost var st, ks, vs, h := flags.view, keys[..], vals[..], hash(key);
      ghost var t := RoomAhead(st, ks, hash, pos, size, nOccupied, h, lg);
      var step, mask := 0, nBuckets - 1;
      i := And(hash(key), mask);
      var last := i;
      ProbeStart(h, nBuckets, lg);
      ScanStarts(st, ks, key, h);
      while !flags.IsEmpty(i) && (flags.IsDeleted(i) || keys[i] != key)
        invariant 0 <= step <= t && i == Probe(h, step, nBuckets)
        invariant Scanned(st, ks, key, h, step)
        decreases t - step
      {
        ScanExtends(st, ks, key, h, step);
        step := step + 1;
        ProbeNext(h, step - 1, nBuckets, lg);
        i := And(Add32(i, step), mask);
        if i == last {
          ProbesDistinct(h, 0, step, lg);
          assert false;
          return nBuckets;
        }
      }
      if flags.IsEither(i) {
        AbsentFromImage(st, ks, vs, hash, pos, size, nOccupied, key, step);
        i := nBuckets;
      } else {
        ImageAt(st, ks, vs, hash, pos, size, nOccupied, i);
      }
    }

    // The inner probe of kh_resize, which has no wrap check: t bounds it.
    method ProbeEmpty(nf: FlagArray, h: nat, n: nat, ghost lg1: nat, ghost bound: nat)
      returns (i: nat, ghost t: nat)
      requires nf.Valid() && |nf.view| == n == Exp2(lg1) && lg1 <= 31
      requires bound < n && nf.view[Probe(h, bound, n)] == Empty
      ensures i < n && nf.view[i] == Empty && Path(nf.view, h, t, i)
    {
      hide And, Add32, Probe, Exp2;
      var step := 0;
      i := And(h, n - 1);
      ProbeStart(h, n, lg1);
      while !nf.IsEmpty(i)
        invariant 0 <= step <= bound && i == Probe(h, step, n)
        invariant forall u :: 0 <= u < step ==> nf.view[Probe(h, u, n)] != Empty
        decreases bound - step
      {
        step := step + 1;
        ProbeNext(h, step - 1, n, lg1);
        i := And(Add32(i, step), n - 1);
      }
      t := step;
    }

    // A rehash in progress: nf holds the new flags beside the table's old ones.
    ghost predicate Rehashing(nf: FlagArray, po: map<K, nat>, pn: map<K, nat>, hand: Hand<K, V>, m: map<K, V>)
      requires flags != null
      reads this, Repr(), nf, nf.words
    {
      && Apart(flags) && Apart(nf) && nf != flags && nf.words != flags.words
      && flags.Valid() && nf.Valid()
      && |nf.view| <= keys.Length == vals.Length && |flags.view| <= keys.Length
      && Split(flags.view, nf.view, keys[..], vals[..], hash, po, pn, hand, m)
    }

    // Write an entry to bucket i and return what was there.
    method Exchange(i: nat, key: K, val: V) returns (key': K, val': V)
      requires i < keys.Length == vals.Length && keys as object != vals as object
      modifies keys, vals
      ensures keys[..] == old(keys[..])[i := key] && vals[..] == old(vals[..])[i := val]
      ensures key' == old(keys[i]) && val' == old(vals[i])
    {
      key', val' := keys[i], vals[i];
      keys[i], vals[i] := key, val;
    }

    // One round of the kick-out process: put the entry in hand where its probe leads; if that
    // displaces an entry not yet rehashed, that one is in hand next, otherwise the chain ends.
    method KickOnce(nf: FlagArray, key: K, val: V, n: nat, ghost lg1: nat,
                    ghost po: map<K, nat>, ghost pn: map<K, nat>, ghost m: map<K, V>)
      returns (done: bool, key': K, val': V, ghost po': map<K, nat>, ghost pn': map<K, nat>)
      requires flags != null && Rehashing(nf, po, pn, Entry(key, val), m)
      requires nBuckets == |flags.view| && n == |nf.view| == Exp2(lg1) && lg1 <= 31 && |m| <= n
      modifies keys, vals, flags, flags.words, nf, nf.words
      ensures Rehashing(nf, po', pn', if done then Nothing else Entry(key', val'), m)
      ensures |nf.view| == n && |flags.view| == nBuckets
      ensures !done ==> |po'| < |po|
      ensures forall i :: 0 <= i < nBuckets && old(flags.view)[i] != Live ==> flags.view[i] != Live
    {
      hide Split, Covers, Indexed, AllReach, Exp2, Probe, And;
      ghost var bound := SplitHasRoom(flags.view, nf.view, keys[..], vals[..], hash, po, pn, Entry(key, val), m, lg1);
      ghost var t;
      var i;
      i, t := ProbeEmpty(nf, hash(key), n, lg1, bound);
      ghost var fo, fn, ks, vs := flags.view, nf.view, keys[..], vals[..];
      nf.Occupy(i);
      if i < nBuckets && !flags.IsEither(i) {
        SplitKick(fo, fn, ks, vs, hash, po, pn, key, val, m, t, i);
        done, po', pn' := false, po - {keys[i]}, pn[key := i];
        flags.SetDeleted(i);
      } else {
        SplitPlace(fo, fn, ks, vs, hash, po, pn, key, val, m, t, i);
        done, po', pn' := true, po, pn[key := i];
      }
      key', val' := Exchange(i, key, val);
    }

    // The kick-out process for one picked-up entry: place it, displace what it lands on, repeat.
    method KickOut(nf: FlagArray, key0: K, val0: V, n: nat, ghost lg1: nat,
                   ghost po0: map<K, nat>, ghost pn0: map<K, nat>, ghost m: map<K, V>)
      returns (ghost po: map<K, nat>, ghost pn: map<K, nat>)
      requires flags != null && Rehashing(nf, po0, pn0, Entry(key0, val0), m)
      requires nBuckets == |flags.view| && n == |nf.view| == Exp2(lg1) && lg1 <= 31 && |m| <= n
      modifies keys, vals, flags, flags.words, nf, nf.words
      ensures Rehashing(nf, po, pn, Nothing, m)
      ensures |nf.view| == n && |flags.view| == nBuckets
      ensures forall i :: 0 <= i < nBuckets && old(flags.view)[i] != Live ==> flags.view[i] != Live
    {
      hide Split, Exp2;
      var key, val, done := key0, val0, false;
      po, pn := po0, pn0;
      while !done
        invariant Rehashing(nf, po, pn, if done then Nothing else Entry(key, val), m)
        invariant |nf.view| == n && |flags.view| == nBuckets
        invariant forall i :: 0 <= i < nBuckets && old(flags.view)[i] != Live ==> flags.view[i] != Live
        decreases !done, |po|
      {
        done, key, val, po, pn := KickOnce(nf, key, val, n, lg1, po, pn, m);
      }
    }

    // The loop of kh_resize over the old buckets.
    method Rehash(nf: FlagArray, n: nat, ghost lg1: nat, ghost m: map<K, V>) returns (ghost pn: map<K, nat>)
      requires flags != null && Rehashing(nf, pos, map[], Nothing, m)
      requires nBuckets == |flags.view| && n == |nf.view| == Exp2(lg1) && lg1 <= 31 && |m| <= n
      modifies keys, vals, flags, flags.words, nf, nf.words
      ensures Rehashing(nf, map[], pn, Nothing, m)
      ensures |nf.view| == n && m.Keys == pn.Keys && |pn| == |m| == |OccupiedSet(nf.view)|
    {
      hide Split, Exp2, OccupiedSet;
      ghost var po := pos;
      pn := map[];
      var j := 0;
      while j != nBuckets
        invariant 0 <= j <= nBuckets
        invariant Rehashing(nf, po, pn, Nothing, m)
        invariant |nf.view| == n && |flags.view| == nBuckets
        invariant forall i :: 0 <= i < j ==> flags.view[i] != Live
        decreases nBuckets - j
      {
        if !flags.IsEither(j) {
          var key, val := keys[j], vals[j];
          SplitTake(flags.view, nf.view, keys[..], vals[..], hash, po, pn, m, j);
          flags.SetDeleted(j);
          po, pn := KickOut(nf, key, val, n, lg1, po - {key}, pn, m);
        }
        j := j + 1;
      }
      SplitDone(flags.view, nf.view, keys[..], vals[..], hash, po, pn, m);
    }

    // krealloc of the key and value arrays: the common prefix survives.
    method ReallocBoth(n: nat)
      requires keys.Length == vals.Length
      modifies `keys, `vals
      ensures fresh(keys) && fresh(vals) && keys as object != vals as object
      ensures keys.Length == vals.Length == n
      ensures var k := if n < old(keys.Length) then n else old(keys.Length);
              keys[..k] == old(keys[..])[..k] && vals[..k] == old(vals[..])[..k]
    {
      var newKeys := Realloc(keys, n);
      var newVals := Realloc(vals, n);
      keys, vals := newKeys, newVals;
    }

    // Grow the arrays if needed, rehash in place, shrink the arrays if needed.
    method ResizeInto(nf: FlagArray, n: nat, ghost lg1: nat)
      requires Valid() && flags != null && size <= n
      requires nf.Valid() && n == |nf.view| == Exp2(lg1) && lg1 <= 31 && n > 0
      requires forall i :: 0 <= i < n ==> nf.view[i] == Empty
      requires nf != flags && nf.words != flags.words && Apart(nf)
      modifies `keys, `vals, `pos, keys, vals, flags, flags.words, nf, nf.words
      ensures nf.Valid() && |nf.view| == n == keys.Length == vals.Length && Apart(nf)
      ensures (keys == old(keys) && vals == old(vals)) || (fresh(keys) && fresh(vals))
      ensures InOrder(nf.view, keys[..], hash, pos, size, size)
      ensures Contents() == old(Contents())
    {
      hide Split, Exp2, OccupiedSet, Image, InOrder, Upper;
      ghost var m, st, ks, vs := Contents(), flags.view, keys[..], vals[..];
      if nBuckets < n {
        ReallocBoth(n);
      }
      SplitStart(st, ks, vs, hash, pos, size, nOccupied, nf.view, keys[..], vals[..]);
      pos := Rehash(nf, n, lg1, m);
      ghost var fo;
      fo, ks, vs := flags.view, keys[..], vals[..];
      if nBuckets > n {
        ReallocBoth(n);
      }
      Rehashed(fo, nf.view, ks, vs, keys[..], vals[..], hash, pos, m);
    }

    // kh_resize: kroundup32 the request, refuse it if the keys would not fit, otherwise rehash.
    method Resize(request: nat)
      requires Valid() && request < WORD
      modifies Repr()
      ensures Valid() && fresh(Repr() - old(Repr()))
      ensures Contents() == old(Contents()) && size == old(size)
      ensures if 100 * old(size) + 50 > 77 * Rounded(request)
              then nBuckets == old(nBuckets) && nOccupied == old(nOccupied) && upperBound == old(upperBound)
              else nBuckets == Rounded(request) && nOccupied == size
                   && 100 * upperBound <= 77 * nBuckets + 50 < 100 * upperBound + 100
    {
      hide Exp2, Rounded, Image, InOrder, Upper;
      var n := Rounded(request);
      UpperIsNearest(n);
      ghost var lg1 := RoundedPow2(request);
      if size < Upper(n) {
        Rebuild(n, lg1);
      }
    }

    // The part of kh_resize that runs when the request is not refused.
    method Rebuild(n: nat, ghost lg1: nat)
      requires Valid() && size < Upper(n)
      requires 2 <= lg1 <= 31 && n == Exp2(lg1) && 4 <= n <= MAX_BUCKETS && (n < 16 || n % 16 == 0)
      modifies Repr()
      ensures Valid() && fresh(Repr() - old(Repr()))
      ensures Contents() == old(Contents()) && size == old(size)
      ensures nBuckets == n && nOccupied == size && upperBound == Upper(n)
    {
      hide Exp2, Image, InOrder, Upper;
      UpperBelow(n);
      var nf := new FlagArray(n);
      if flags == null {
        NoImage<K, V>(vals[..]);
        ReallocBoth(n);
        FreshInOrder(nf.view, keys[..], vals[..], hash);
      } else {
        ResizeInto(nf, n, lg1);
      }
      flags, nBuckets, nOccupied, upperBound := nf, n, size, Upper(n);
      lg := lg1;
    }

    // The rehash at the head of kh_put. It is never refused, so an empty bucket remains afterwards.
    method MakeRoom()
      requires Valid() && CanGrow()
      modifies Repr()
      ensures Valid() && fresh(Repr() - old(Repr()))
      ensures Contents() == old(Contents())
      ensures flags != null && nOccupied < upperBound
      ensures old(nOccupied) < old(upperBound) ==>
                && nBuckets == old(nBuckets) && nOccupied == old(nOccupied)
                && old(flags) == flags && flags.view == old(flags.view)
      ensures old(nOccupied) >= old(upperBound) ==> nOccupied == size
      ensures size == old(size)
      ensures nBuckets == if old(nOccupied) < old(upperBound) || old(nBuckets) > 2 * old(size) then old(nBuckets)
                          else if old(nBuckets) == 0 then 4 else 2 * old(nBuckets)
    {
      hide Exp2, Rounded, Upper, InOrder, Image;
      if nOccupied >= upperBound {
        Counts();
        FirstRequestFits();
        if flags != null { RequestsFit(lg); }
        if nBuckets > 2 * size {
          Resize(nBuckets - 1);
        } else {
          Resize(nBuckets + 1);
        }
      }
    }

    // kh_put can make room unless it has to double a table that already has 2^31 buckets.
    ghost predicate CanGrow()
      reads this
    {
      !(nOccupied >= upperBound && nBuckets <= 2 * size && nBuckets == MAX_BUCKETS)
    }

    // The probe of kh_put: the key's own bucket if it has one, otherwise the last tombstone
    // passed on the way to the first empty bucket, otherwise that empty bucket.
    method FindSlot(key: K) returns (x: nat)
      requires Valid() && flags != null && nOccupied < upperBound
      ensures x < nBuckets
      ensures key in pos <==> key in Contents()
      ensures key in pos ==> x == pos[key] && flags.view[x] == Live && keys[x] == key
      ensures key !in pos ==> flags.view[x] != Live && Reaches(flags.view, hash(key), x)
      ensures flags.view[x] == Empty ==> ReachesDirectly(flags.view, hash(key), x)
      ensures key !in pos ==> SlotForNew(flags.view, hash(key), x)
    {
      hide And, Add32, Probe, Exp2, Upper, InOrder, Image, Scanned, Reaches, LastTombstone, SlotForNew;
      ghost var st, ks, vs, h := flags.view, keys[..], vals[..], hash(key);
      ghost var t := RoomAhead(st, ks, hash, pos, size, nOccupied, h, lg);
      var mask, step := nBuckets - 1, 0;
      x := nBuckets;
      var site: nat := nBuckets;
      var i := And(hash(key), mask);
      ProbeStart(h, nBuckets, lg);
      ScanStarts(st, ks, key, h);
      if flags.IsEmpty(i) {
        x := i;
      } else {
        var last := i;
        while !flags.IsEmpty(i) && (flags.IsDeleted(i) || keys[i] != key)
          invariant 0 <= step <= t && i == Probe(h, step, nBuckets)
          invariant Scanned(st, ks, key, h, step)
          invariant x == nBuckets
          invariant site <= nBuckets
          invariant site < nBuckets ==> st[site] == Deleted && Reaches(st, h, site) && LastTombstone(st, h, step, site)
          invariant site == nBuckets ==> AllLive(st, h, step)
          decreases t - step
        {
          ScanExtends(st, ks, key, h, step);
          if flags.IsDeleted(i) {
            site := i;
            ScanReaches(st, ks, key, h, step);
            TombstoneMet(st, h, step);
          } else if site < nBuckets {
            TombstoneStays(st, h, step, site);
          }
          step := step + 1;
          ProbeNext(h, step - 1, nBuckets, lg);
          i := And(Add32(i, step), mask);
          if i == last {
            ProbesDistinct(h, 0, step, lg);
            assert false;
            x := site;
            break;
          }
        }
        if x == nBuckets {
          if flags.IsEmpty(i) && site != nBuckets {
            x := site;
          } else {
            x := i;
          }
        }
      }
      if st[i] == Empty {
        AbsentFromImage(st, ks, vs, hash, pos, size, nOccupied, key, step);
        ScanReaches(st, ks, key, h, step);
        NewSlot(st, ks, key, h, step, x);
      } else {
        ImageAt(st, ks, vs, hash, pos, size, nOccupied, i);
      }
    }

    // The part common to the two writing branches of kh_put; the caller counts a newly occupied bucket.
    method Write(key: K, x: nat)
      requires Valid() && flags != null && x < nBuckets
      requires key !in pos && flags.view[x] != Live && Reaches(flags.view, hash(key), x)
      modifies `size, `pos, keys, flags, flags.words
      ensures Apart(flags) && flags.Valid() && flags.view == old(flags.view)[x := Live]
      ensures keys[x] == key && size == old(size) + 1
      ensures InOrder(flags.view, keys[..], hash, pos, size,
                      if old(flags.view)[x] == Empty then nOccupied + 1 else nOccupied)
      ensures Contents() == old(Contents())[key := vals[x]]
    {
      hide Exp2, Upper, InOrder, Image;
      ghost var ks := keys[..];
      PutInOrder(flags.view, ks, vals[..], hash, pos, size, nOccupied, x, key);
      keys[x] := key;
      assert keys[..] == ks[x := key];
      flags.SetLive(x);
      size := size + 1;
      pos := pos[key := x];
    }

    // kh_put
    method Put(key: K) returns (x: nat, ret: nat)
      requires Valid() && CanGrow()
      modifies Repr()
      ensures Valid() && fresh(Repr() - old(Repr()))
      ensures IsLive(x) && x < keys.Length == vals.Length && keys[x] == key
      ensures Contents() == if key in old(Contents()) then old(Contents()) else old(Contents())[key := vals[x]]
      ensures ret == 0 <==> key in old(Contents())
      ensures ret == 1 || ret == 2 || ret == 0
      ensures ret == 2 ==> nOccupied == old(nOccupied) && nBuckets == old(nBuckets)
      ensures nOccupied == (if old(nOccupied) < old(upperBound) then old(nOccupied) else old(size))
                           + (if ret == 1 then 1 else 0)
      ensures nBuckets == if old(nOccupied) < old(upperBound) || old(nBuckets) > 2 * old(size) then old(nBuckets)
                          else if old(nBuckets) == 0 then 4 else 2 * old(nBuckets)
      ensures old(flags) != null && old(nOccupied) < old(upperBound) ==>
                && x < |old(flags.view)|
                && ret == (match old(flags.view)[x] case Empty => 1 case Deleted => 2 case Live => 0)
                && (ret != 0 ==> SlotForNew(old(flags.view), hash(key), x))
    {
      hide Exp2, Upper, InOrder, Image, SlotForNew;
      MakeRoom();
      x, ret := PutSlot(key);
    }

    // The second half of kh_put, once there is room.
    method PutSlot(key: K) returns (x: nat, ret: nat)
      requires Valid() && flags != null && nOccupied < upperBound
      modifies `size, `nOccupied, `pos, keys, flags, flags.words
      ensures Valid() && IsLive(x) && x < keys.Length == vals.Length && keys[x] == key
      ensures Contents() == if key in old(Contents()) then old(Contents()) else old(Contents())[key := vals[x]]
      ensures ret == 0 <==> key in old(Contents())
      ensures ret == 1 || ret == 2 || ret == 0
      ensures ret == 2 ==> old(size) < nOccupied == old(nOccupied)
      ensures nOccupied == old(nOccupied) + (if ret == 1 then 1 else 0)
      ensures ret == 1 ==> ReachesDirectly(old(flags.view), hash(key), x)
      ensures ret == (match old(flags.view)[x] case Empty => 1 case Deleted => 2 case Live => 0)
      ensures ret != 0 ==> SlotForNew(old(flags.view), hash(key), x)
      ensures nBuckets == old(nBuckets)
    {
      hide Exp2, Upper, InOrder, Image, SlotForNew, Reaches, ReachesDirectly;
      x := FindSlot(key);
      if flags.IsEmpty(x) {
        Write(key, x);
        nOccupied := nOccupied + 1;
        ret := 1;
      } else if flags.IsDeleted(x) {
        NotFresh(flags.view, keys[..], hash, pos, size, nOccupied, x);
        Write(key, x);
        ret := 2;
      } else {
        ret := 0;
      }
    }

    predicate IsLive(x: nat)
      requires Valid()
      reads this, Repr()
    {
      flags != null && x < nBuckets && !flags.IsEither(x)
    }

    // The client's kh_value(h, x) = v on a bucket that holds a key.
    method SetValue(x: nat, v: V)
      requires Valid() && IsLive(x)
      modifies vals
      ensures Valid() && Contents() == old(Contents())[keys[x] := v]
    {
      hide Exp2, Upper, InOrder, Image;
      StoreImage(flags.view, keys[..], vals[..], hash, pos, size, nOccupied, x, v);
      ghost var vs := vals[..];
      vals[x] := v;
      assert vals[..] == vs[x := v];
    }

    // kh_del; the marking of a live bucket is Unlink.
    method Del(x: nat)
      requires Valid() && x <= nBuckets
      modifies `size, `pos, FlagRepr()
      ensures Valid()
      ensures Contents() == if old(IsLive(x)) then old(Contents()) - {keys[x]} else old(Contents())
    {
      hide Exp2, Upper, InOrder, Image;
      if x != nBuckets && !flags.IsEither(x) {
        Unlink(x);
      }
    }

    method Unlink(x: nat)
      requires Valid() && flags != null && x < nBuckets && flags.view[x] == Live
      modifies `size, `pos, flags, flags.words
      ensures Valid() && Contents() == old(Contents()) - {keys[x]}
    {
      hide Exp2, Upper, InOrder, Image;
      DeleteInOrder(flags.view, keys[..], vals[..], hash, pos, size, nOccupied, x);
      pos := pos - {keys[x]};
      flags.SetDeleted(x);
      size := size - 1;
    }

    // kh_clear
    method Clear()
      requires Valid()
      modifies `size, `nOccupied, `pos, FlagRepr()
      ensures Valid() && Contents() == map[] && size == nOccupied == 0
    {
      hide Exp2, Upper, InOrder, Image;
      NoImage<K, V>(vals[..]);
      if flags != null {
        flags.Clear();
        size, nOccupied := 0, 0;
        pos := map[];
        FreshInOrder(flags.view, keys[..], vals[..], hash);
      }
    }
  }

  // The operations a client performs, and what each does to the map the table stands for.
  datatype Op<K, V> =
    | Store(key: K, val: V)      // kh_put, then kh_value(h, k) = val
    | Remove(key: K)             // kh_get, then kh_del
    | Reset                      // kh_clear
    | Request(buckets: nat)      // kh_resize

  ghost function Effect<K, V>(m: map<K, V>, op: Op<K, V>): map<K, V> {
    match op
    case Store(k, v) => m[k := v]
    case Remove(k) => m - {k}
    case Reset => map[]
    case Request(_) => m
  }

  ghost function Effects<K, V>(m: map<K, V>, ops: seq<Op<K, V>>): map<K, V>
    decreases |ops|
  {
    if ops == [] then m else Effects(Effect(m, ops[0]), ops[1..])
  }

  lemma {:induction false} EffectsNext<K, V>(m: map<K, V>, ops: seq<Op<K, V>>, n: nat)
    requires n < |ops|
    ensures Effects(m, ops[..n + 1]) == Effect(Effects(m, ops[..n]), ops[n])
    decreases n
  {
    hide Effect;
    if n == 0 {
      assert ops[..1][1..] == [];
    } else {
      EffectsNext(Effect(m, ops[0]), ops[1..], n - 1);
      assert ops[..n + 1][1..] == ops[1..][..n] && ops[..n][1..] == ops[1..][..n - 1];
    }
  }

  method StoreEntry<K(==, 0, !new), V(0)>(t: Table<K, V>, k: K, v: V)
    requires t.Valid() && |t.Contents()| < 0x4000_0000
    modifies t.Repr()
    ensures t.Valid() && fresh(t.Repr() - old(t.Repr()))
    ensures t.Contents() == old(t.Contents())[k := v]
  {
    hide Exp2, Upper, InOrder, Image;
    t.Counts();
    var x, ret := t.Put(k);
    t.SetValue(x, v);
  }

  method RemoveEntry<K(==, 0, !new), V(0)>(t: Table<K, V>, k: K)
    requires t.Valid()
    modifies t.Repr()
    ensures t.Valid() && t.Repr() == old(t.Repr())
    ensures t.Contents() == old(t.Contents()) - {k}
  {
    hide Exp2, Upper, InOrder, Image;
    var x := t.Get(k);
    t.Del(x);
  }

  method Perform<K(==, 0, !new), V(0)>(t: Table<K, V>, op: Op<K, V>)
    requires t.Valid() && |t.Contents()| < 0x4000_0000
    requires op.Request? ==> op.buckets < WORD
    modifies t.Repr()
    ensures t.Valid() && fresh(t.Repr() - old(t.Repr()))
    ensures t.Contents() == Effect(old(t.Contents()), op)
  {
    hide Exp2, Upper, InOrder, Image, Rounded;
    match op
    case Store(k, v) => StoreEntry(t, k, v);
    case Remove(k) => RemoveEntry(t, k);
    case Reset => t.Clear();
    case Request(n) => t.Resize(n);
  }

  // Whatever the operations and however they rehash the table on the way, it ends up standing
  // for the map that the same operations make of its initial contents. Nothing bounds their number;
  // the map just must not reach 2^30 keys, from where the table might have to double past 2^31 buckets.
  method Replay<K(==, 0, !new), V(0)>(t: Table<K, V>, ops: seq<Op<K, V>>)
    requires t.Valid()
    requires forall n :: 0 <= n < |ops| ==> |Effects(t.Contents(), ops[..n])| < 0x4000_0000
    requires forall i :: 0 <= i < |ops| && ops[i].Request? ==> ops[i].buckets < WORD
    modifies t.Repr()
    ensures t.Valid() && fresh(t.Repr() - old(t.Repr()))
    ensures t.Contents() == Effects(old(t.Contents()), ops)
  {
    hide Image, InOrder, Effect;
    ghost var m := t.Contents();
    for n := 0 to |ops|
      invariant t.Valid() && fresh(t.Repr() - old(t.Repr()))
      invariant t.Contents() == Effects(m, ops[..n])
    {
      EffectsNext(m, ops, n);
      Perform(t, ops[n]);
    }
    assert ops[..|ops|] == ops;
  }
}
