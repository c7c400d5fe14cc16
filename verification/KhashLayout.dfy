// What the bucket arrays of a khash table mean: where each key lives, when a probe
// reaches it, and how every operation on the arrays changes that meaning.
module KhashLayout {
  import opened Words
  import opened KhashProbe
  import opened KhashFlags

  datatype Hand<+K, +V> = Nothing | Entry(key: K, val: V)

  // The bound (khint_t)(n * 0.77 + 0.5), exact for the powers of two it is applied to.
  function Upper(n: nat): nat { (77 * n + 50) / 100 }

  // It is n times 0.77 to the nearest integer.
  lemma UpperIsNearest(n: nat)
    ensures 100 * Upper(n) <= 77 * n + 50 < 100 * Upper(n) + 100
  {
  }

  // pos records the live buckets: each holds the key that pos sends to it, and no two the same key.
  ghost predicate Indexed<K>(st: seq<Status>, keys: seq<K>, pos: map<K, nat>)
    requires |st| <= |keys|
  {
    && (forall k :: k in pos ==> pos[k] < |st| && st[pos[k]] == Live && keys[pos[k]] == k)
    && (forall i :: 0 <= i < |st| && st[i] == Live ==> keys[i] in pos && pos[keys[i]] == i)
  }

  // The t-th probe for hash h is bucket i, and every bucket probed before it is non-empty.
  ghost predicate Path(st: seq<Status>, h: nat, t: nat, i: nat)
    requires |st| > 0
  {
    && Probe(h, t, |st|) == i
    && forall u :: 0 <= u < t ==> st[Probe(h, u, |st|)] != Empty
  }

  ghost predicate Reaches(st: seq<Status>, h: nat, i: nat)
    requires |st| > 0
  {
    exists t: nat :: Path(st, h, t, i)
  }

  // Bucket i is reached past live buckets only: no tombstone could have been reused on the way.
  ghost predicate ReachesDirectly(st: seq<Status>, h: nat, i: nat)
    requires |st| > 0
  {
    exists t: nat :: Probe(h, t, |st|) == i && AllLive(st, h, t)
  }

  ghost predicate AllLive(st: seq<Status>, h: nat, t: nat)
    requires |st| > 0
  {
    forall u :: 0 <= u < t ==> st[Probe(h, u, |st|)] == Live
  }

  // No tombstone is met after the u-th probe and before the t-th.
  ghost predicate NoneSince(st: seq<Status>, h: nat, u: nat, t: nat)
    requires |st| > 0
  {
    forall v :: u < v < t ==> st[Probe(h, v, |st|)] != Deleted
  }

  // x is the tombstone met last among the first t probes.
  ghost predicate LastTombstone(st: seq<Status>, h: nat, t: nat, x: nat)
    requires |st| > 0
  {
    x < |st| && st[x] == Deleted && exists u: nat :: u < t && Probe(h, u, |st|) == x && NoneSince(st, h, u, t)
  }

  lemma TombstoneMet(st: seq<Status>, h: nat, t: nat)
    requires |st| > 0 && st[Probe(h, t, |st|)] == Deleted
    ensures LastTombstone(st, h, t + 1, Probe(h, t, |st|))
  {
    assert NoneSince(st, h, t, t + 1);
  }

  lemma TombstoneStays(st: seq<Status>, h: nat, t: nat, x: nat)
    requires |st| > 0 && LastTombstone(st, h, t, x) && st[Probe(h, t, |st|)] != Deleted
    ensures LastTombstone(st, h, t + 1, x)
  {
    var u: nat :| u < t && Probe(h, u, |st|) == x && NoneSince(st, h, u, t);
    assert NoneSince(st, h, u, t + 1);
  }

  // The bucket a new key goes to: the last tombstone before the first empty bucket on its probe path,
  // or that empty bucket if there is none.
  ghost predicate SlotForNew(st: seq<Status>, h: nat, x: nat)
    requires |st| > 0
  {
    exists t: nat ::
      && Path(st, h, t, Probe(h, t, |st|)) && st[Probe(h, t, |st|)] == Empty
      && if AllLive(st, h, t) then x == Probe(h, t, |st|) else LastTombstone(st, h, t, x)
  }

  ghost predicate AllReach<K(!new)>(st: seq<Status>, hash: K -> nat, pos: map<K, nat>)
    requires |st| > 0
  {
    forall k :: k in pos ==> Reaches(st, hash(k), pos[k])
  }

  // The first t probes for key met neither an empty bucket nor the key.
  ghost predicate Scanned<K>(st: seq<Status>, keys: seq<K>, key: K, h: nat, t: nat)
    requires 0 < |st| <= |keys|
  {
    forall u :: 0 <= u < t ==>
      var p := Probe(h, u, |st|); st[p] != Empty && (st[p] == Deleted || keys[p] != key)
  }

  lemma ScanStarts<K>(st: seq<Status>, keys: seq<K>, key: K, h: nat)
    requires 0 < |st| <= |keys|
    ensures Scanned(st, keys, key, h, 0)
  {
  }

  lemma ScanExtends<K>(st: seq<Status>, keys: seq<K>, key: K, h: nat, t: nat)
    requires 0 < |st| <= |keys| && Scanned(st, keys, key, h, t)
    requires var p := Probe(h, t, |st|); st[p] != Empty && (st[p] == Deleted || keys[p] != key)
    ensures Scanned(st, keys, key, h, t + 1)
  {
  }

  // Everything a scan has passed is non-empty, so where it stands is reachable.
  lemma ScanReaches<K>(st: seq<Status>, keys: seq<K>, key: K, h: nat, t: nat)
    requires 0 < |st| <= |keys| && Scanned(st, keys, key, h, t)
    ensures Reaches(st, h, Probe(h, t, |st|))
  {
    assert Path(st, h, t, Probe(h, t, |st|));
  }

  // Where a fruitless scan for an absent key puts it.
  lemma NewSlot<K>(st: seq<Status>, keys: seq<K>, key: K, h: nat, t: nat, x: nat)
    requires 0 < |st| <= |keys| && Scanned(st, keys, key, h, t) && st[Probe(h, t, |st|)] == Empty
    requires LastTombstone(st, h, t, x) || (x == Probe(h, t, |st|) && AllLive(st, h, t))
    ensures SlotForNew(st, h, x)
  {
    assert Path(st, h, t, Probe(h, t, |st|));
    if !AllLive(st, h, t) || x != Probe(h, t, |st|) {
      assert LastTombstone(st, h, t, x);
      assert !AllLive(st, h, t);
    }
  }

  // A fruitless scan that ends in an empty bucket proves the key absent.
  lemma ScanMisses<K(!new)>(st: seq<Status>, keys: seq<K>, hash: K -> nat, pos: map<K, nat>, key: K, t: nat)
    requires 0 < |st| <= |keys| && Indexed(st, keys, pos) && AllReach(st, hash, pos)
    requires Scanned(st, keys, key, hash(key), t) && st[Probe(hash(key), t, |st|)] == Empty
    ensures key !in pos
  {
  }

  // Turning an empty or deleted bucket live, or a live one deleted, cuts no probe path.
  lemma ReachesGrows(st: seq<Status>, st': seq<Status>, h: nat, i: nat)
    requires |st'| == |st| > 0 && Reaches(st, h, i)
    requires forall j :: 0 <= j < |st| && st[j] != Empty ==> st'[j] != Empty
    ensures Reaches(st', h, i)
  {
    var t: nat :| Path(st, h, t, i);
    assert Path(st', h, t, i);
  }

  lemma AllReachGrows<K(!new)>(st: seq<Status>, st': seq<Status>, hash: K -> nat, pos: map<K, nat>)
    requires |st'| == |st| > 0 && AllReach(st, hash, pos)
    requires forall j :: 0 <= j < |st| && st[j] != Empty ==> st'[j] != Empty
    ensures AllReach(st', hash, pos)
  {
    forall k | k in pos ensures Reaches(st', hash(k), pos[k]) {
      ReachesGrows(st, st', hash(k), pos[k]);
    }
  }

  // Deleting the key of live bucket i.
  lemma DeleteAt<K>(st: seq<Status>, keys: seq<K>, pos: map<K, nat>, i: nat)
    requires |st| <= |keys| && Indexed(st, keys, pos) && i < |st| && st[i] == Live
    ensures Indexed(st[i := Deleted], keys, pos - {keys[i]})
    ensures |pos - {keys[i]}| == |pos| - 1
  {
    assert (pos - {keys[i]}).Keys == pos.Keys - {keys[i]};
  }

  // Writing an absent key into bucket i, whatever non-live state it was in.
  lemma InsertAt<K>(st: seq<Status>, keys: seq<K>, pos: map<K, nat>, i: nat, key: K)
    requires |st| <= |keys| && Indexed(st, keys, pos) && i < |st| && st[i] != Live && key !in pos
    ensures Indexed(st[i := Live], keys[i := key], pos[key := i])
    ensures |pos[key := i]| == |pos| + 1
  {
    assert pos[key := i].Keys == pos.Keys + {key};
  }

  function LiveSet(st: seq<Status>): set<nat> {
    set i: nat | i < |st| && st[i] == Live
  }

  function OccupiedSet(st: seq<Status>): set<nat> {
    set i: nat | i < |st| && st[i] != Empty
  }

  lemma SetMono<T>(a: set<T>, b: set<T>)
    requires a <= b
    ensures |a| <= |b|
  {
    assert b == a + (b - a);
  }

  // Keys and live buckets correspond one to one.
  lemma {:induction false} LiveCount<K>(st: seq<Status>, keys: seq<K>, pos: map<K, nat>)
    requires |st| <= |keys| && Indexed(st, keys, pos)
    ensures |pos| == |LiveSet(st)|
    decreases |pos|
  {
    if |pos| == 0 {
      assert LiveSet(st) == {};
    } else {
      assert pos.Keys != {};
      var k :| k in pos;
      var i := pos[k];
      DeleteAt(st, keys, pos, i);
      LiveCount(st[i := Deleted], keys, pos - {k});
      assert LiveSet(st) == LiveSet(st[i := Deleted]) + {i};
    }
  }

  lemma LiveAtMostOccupied<K>(st: seq<Status>, keys: seq<K>, pos: map<K, nat>)
    requires |st| <= |keys| && Indexed(st, keys, pos)
    ensures |pos| <= |OccupiedSet(st)| <= |st|
    ensures (exists i :: 0 <= i < |st| && st[i] == Deleted) ==> |pos| < |OccupiedSet(st)|
  {
    LiveCount(st, keys, pos);
    SetMono(LiveSet(st), OccupiedSet(st));
    SetMono(OccupiedSet(st), Below(|st|));
    if i :| 0 <= i < |st| && st[i] == Deleted {
      SetMono(LiveSet(st) + {i}, OccupiedSet(st));
    }
  }

  // Fewer occupied buckets than buckets: some bucket is empty, and every probe sequence finds it.
  lemma EmptyAhead(st: seq<Status>, h: nat, k: nat) returns (t: nat)
    requires |st| == Exp2(k) && |OccupiedSet(st)| < |st|
    ensures t < |st| && st[Probe(h, t, |st|)] == Empty
  {
    var free := Below(|st|) - OccupiedSet(st);
    assert Below(|st|) == free + OccupiedSet(st);
    assert free != {};
    var i :| i in free;
    t := ProbesCover(h, i, k);
  }

  // The state of a rehash in progress: the original contents m are the entries still live in the
  // old flags, the entries already placed under the new flags, and the one in hand. The two flag
  // arrays share the key and value arrays, and no bucket is live in both.
  ghost predicate Split<K(!new), V>(
    old_: seq<Status>, new_: seq<Status>, keys: seq<K>, vals: seq<V>, hash: K -> nat,
    po: map<K, nat>, pn: map<K, nat>, hand: Hand<K, V>, m: map<K, V>)
  {
    && |old_| <= |keys| == |vals| && 0 < |new_| <= |keys|
    && Indexed(old_, keys, po)
    && Indexed(new_, keys, pn)
    && AllReach(new_, hash, pn)
    && (forall i :: 0 <= i < |new_| ==> new_[i] != Deleted)
    && (forall i :: 0 <= i < |old_| && i < |new_| ==> !(old_[i] == Live && new_[i] == Live))
    && Covers(vals, po, pn, hand, m)
  }

  ghost predicate Covers<K, V>(vals: seq<V>, po: map<K, nat>, pn: map<K, nat>, hand: Hand<K, V>, m: map<K, V>) {
    && (forall k :: k in po ==> po[k] < |vals| && k in m && m[k] == vals[po[k]] && k !in pn)
    && (forall k :: k in pn ==> pn[k] < |vals| && k in m && m[k] == vals[pn[k]])
    && (hand.Entry? ==> hand.key in m && m[hand.key] == hand.val && hand.key !in po && hand.key !in pn)
    && (forall k :: k in m ==> k in po || k in pn || (hand.Entry? && k == hand.key))
  }

  // Picking up the entry of old live bucket j.
  lemma SplitTake<K(!new), V>(
    old_: seq<Status>, new_: seq<Status>, keys: seq<K>, vals: seq<V>, hash: K -> nat,
    po: map<K, nat>, pn: map<K, nat>, m: map<K, V>, j: nat)
    requires Split(old_, new_, keys, vals, hash, po, pn, Nothing, m) && j < |old_| && old_[j] == Live
    ensures Split(old_[j := Deleted], new_, keys, vals, hash, po - {keys[j]}, pn, Entry(keys[j], vals[j]), m)
    ensures |po - {keys[j]}| == |po| - 1
  {
    DeleteAt(old_, keys, po, j);
  }

  // Placing a key in the empty new bucket its probe reached keeps every placed key reachable.
  lemma PlaceReaches<K(!new)>(st: seq<Status>, hash: K -> nat, pos: map<K, nat>, key: K, t: nat, i: nat)
    requires 0 < |st| && AllReach(st, hash, pos)
    requires i < |st| && Path(st, hash(key), t, i)
    ensures AllReach(st[i := Live], hash, pos[key := i])
  {
    AllReachGrows(st, st[i := Live], hash, pos);
    assert Path(st[i := Live], hash(key), t, i);
  }

  // Overwriting the key of a bucket that is not live changes nothing.
  lemma OverwriteDead<K>(st: seq<Status>, keys: seq<K>, pos: map<K, nat>, i: nat, key: K)
    requires |st| <= |keys| && i < |keys| && Indexed(st, keys, pos)
    requires i < |st| ==> st[i] != Live
    ensures Indexed(st, keys[i := key], pos)
    ensures forall k :: k in pos ==> pos[k] != i
  {
  }

  lemma CoversPlace<K, V>(
    vals: seq<V>, po: map<K, nat>, pn: map<K, nat>, key: K, val: V, m: map<K, V>, i: nat)
    requires Covers(vals, po, pn, Entry(key, val), m) && i < |vals|
    requires forall k :: k in po ==> po[k] != i
    requires forall k :: k in pn ==> pn[k] != i
    ensures Covers(vals[i := val], po, pn[key := i], Nothing, m)
  {
  }

  // Writing the entry in hand to the empty new bucket i its probe reached, when i holds no old entry.
  lemma SplitPlace<K(!new), V>(
    old_: seq<Status>, new_: seq<Status>, keys: seq<K>, vals: seq<V>, hash: K -> nat,
    po: map<K, nat>, pn: map<K, nat>, key: K, val: V, m: map<K, V>, t: nat, i: nat)
    requires Split(old_, new_, keys, vals, hash, po, pn, Entry(key, val), m)
    requires i < |new_| && new_[i] == Empty && Path(new_, hash(key), t, i)
    requires i < |old_| ==> old_[i] != Live
    ensures Split(old_, new_[i := Live], keys[i := key], vals[i := val], hash, po, pn[key := i], Nothing, m)
  {
    InsertAt(new_, keys, pn, i, key);
    PlaceReaches(new_, hash, pn, key, t, i);
    OverwriteDead(old_, keys, po, i, key);
    CoversPlace(vals, po, pn, key, val, m, i);
  }

  // The same when i does hold an old live entry: the two change places.
  lemma SplitKick<K(!new), V>(
    old_: seq<Status>, new_: seq<Status>, keys: seq<K>, vals: seq<V>, hash: K -> nat,
    po: map<K, nat>, pn: map<K, nat>, key: K, val: V, m: map<K, V>, t: nat, i: nat)
    requires Split(old_, new_, keys, vals, hash, po, pn, Entry(key, val), m)
    requires i < |new_| && new_[i] == Empty && Path(new_, hash(key), t, i)
    requires i < |old_| && old_[i] == Live
    ensures Split(old_[i := Deleted], new_[i := Live], keys[i := key], vals[i := val], hash,
                  po - {keys[i]}, pn[key := i], Entry(keys[i], vals[i]), m)
    ensures |po - {keys[i]}| == |po| - 1
  {
    DeleteAt(old_, keys, po, i);
    InsertAt(new_, keys, pn, i, key);
    PlaceReaches(new_, hash, pn, key, t, i);
    OverwriteDead(old_[i := Deleted], keys, po - {keys[i]}, i, key);
    CoversKick(vals, po, pn, key, val, keys[i], m, i);
  }

  lemma CoversKick<K, V>(
    vals: seq<V>, po: map<K, nat>, pn: map<K, nat>, key: K, val: V, other: K, m: map<K, V>, i: nat)
    requires Covers(vals, po, pn, Entry(key, val), m) && i < |vals|
    requires other in po && po[other] == i
    requires forall k :: k in po - {other} ==> po[k] != i
    requires forall k :: k in pn ==> pn[k] != i
    ensures Covers(vals[i := val], po - {other}, pn[key := i], Entry(other, vals[i]), m)
  {
  }

  // While an entry is in hand there is an empty new bucket ahead of it.
  lemma SplitHasRoom<K(!new), V>(
    old_: seq<Status>, new_: seq<Status>, keys: seq<K>, vals: seq<V>, hash: K -> nat,
    po: map<K, nat>, pn: map<K, nat>, hand: Hand<K, V>, m: map<K, V>, lg: nat) returns (t: nat)
    requires Split(old_, new_, keys, vals, hash, po, pn, hand, m) && hand.Entry?
    requires |m| <= |new_| == Exp2(lg)
    ensures t < |new_| && new_[Probe(hash(hand.key), t, |new_|)] == Empty
  {
    LiveCount(new_, keys, pn);
    assert LiveSet(new_) == OccupiedSet(new_);
    assert pn.Keys <= m.Keys - {hand.key};
    SetMono(pn.Keys, m.Keys - {hand.key});
    t := EmptyAhead(new_, hash(hand.key), lg);
  }

  // With no old bucket live, everything has been placed and nothing else occupies the new flags.
  lemma SplitDone<K(!new), V>(
    old_: seq<Status>, new_: seq<Status>, keys: seq<K>, vals: seq<V>, hash: K -> nat,
    po: map<K, nat>, pn: map<K, nat>, m: map<K, V>)
    requires Split(old_, new_, keys, vals, hash, po, pn, Nothing, m)
    requires forall i :: 0 <= i < |old_| ==> old_[i] != Live
    ensures po == map[] && m.Keys == pn.Keys && |pn| == |m| == |OccupiedSet(new_)|
  {
    LiveCount(new_, keys, pn);
    assert LiveSet(new_) == OccupiedSet(new_);
    assert m.Keys == pn.Keys;
    assert |m.Keys| == |pn.Keys|;
  }

  // The table is in order: every key indexed and reachable, and both counters right.
  ghost predicate InOrder<K(!new)>(
    st: seq<Status>, keys: seq<K>, hash: K -> nat, pos: map<K, nat>, size: nat, nOccupied: nat)
  {
    && 0 < |st| == |keys|
    && Indexed(st, keys, pos)
    && AllReach(st, hash, pos)
    && size == |pos|
    && nOccupied == |OccupiedSet(st)|
  }

  // The map that the key positions and the value array stand for.
  ghost function Image<K, V>(pos: map<K, nat>, vals: seq<V>): map<K, V> {
    map k | k in pos && pos[k] < |vals| :: vals[pos[k]]
  }

  lemma ImageKeys<K(!new), V>(
    st: seq<Status>, keys: seq<K>, vals: seq<V>, hash: K -> nat, pos: map<K, nat>, size: nat, nOccupied: nat)
    requires InOrder(st, keys, hash, pos, size, nOccupied) && |vals| == |keys|
    ensures Image(pos, vals).Keys == pos.Keys && |Image(pos, vals)| == size
    ensures size <= nOccupied
  {
    assert Image(pos, vals).Keys == pos.Keys;
    LiveAtMostOccupied(st, keys, pos);
  }

  // A finished rehash leaves a table in order that stands for the original map.
  lemma Rehashed<K(!new), V>(
    old_: seq<Status>, new_: seq<Status>, keys: seq<K>, vals: seq<V>, keys': seq<K>, vals': seq<V>,
    hash: K -> nat, pn: map<K, nat>, m: map<K, V>)
    requires Split(old_, new_, keys, vals, hash, map[], pn, Nothing, m)
    requires |pn| == |m| == |OccupiedSet(new_)| && m.Keys == pn.Keys
    requires keys' == keys[..|new_|] && vals' == vals[..|new_|]
    ensures InOrder(new_, keys', hash, pn, |m|, |m|) && Image(pn, vals') == m
  {
  }

  lemma FreshInOrder<K(!new), V>(st: seq<Status>, keys: seq<K>, vals: seq<V>, hash: K -> nat)
    requires 0 < |st| == |keys| && forall i :: 0 <= i < |st| ==> st[i] == Empty
    ensures InOrder(st, keys, hash, map[], 0, 0) && Image<K, V>(map[], vals) == map[]
  {
    assert OccupiedSet(st) == {};
  }

  // Putting an absent key into a non-live bucket its probe reaches.
  lemma PutInOrder<K(!new), V>(
    st: seq<Status>, keys: seq<K>, vals: seq<V>, hash: K -> nat, pos: map<K, nat>, size: nat, nOccupied: nat,
    x: nat, key: K)
    requires InOrder(st, keys, hash, pos, size, nOccupied) && |vals| == |keys|
    requires x < |st| && st[x] != Live && key !in pos && Reaches(st, hash(key), x)
    ensures InOrder(st[x := Live], keys[x := key], hash, pos[key := x], size + 1,
                    if st[x] == Empty then nOccupied + 1 else nOccupied)
    ensures Image(pos[key := x], vals) == Image(pos, vals)[key := vals[x]]
  {
    hide Path;
    InsertAt(st, keys, pos, x, key);
    var t: nat :| Path(st, hash(key), t, x);
    PlaceReaches(st, hash, pos, key, t, x);
    OccupyCount(st, x);
  }

  lemma OccupyCount(st: seq<Status>, x: nat)
    requires x < |st| && st[x] != Live
    ensures |OccupiedSet(st[x := Live])| == |OccupiedSet(st)| + if st[x] == Empty then 1 else 0
  {
    var before, after := OccupiedSet(st), OccupiedSet(st[x := Live]);
    assert after == before + {x};
    if st[x] != Empty { assert before + {x} == before; }
  }

  lemma DeleteInOrder<K(!new), V>(
    st: seq<Status>, keys: seq<K>, vals: seq<V>, hash: K -> nat, pos: map<K, nat>, size: nat, nOccupied: nat, x: nat)
    requires InOrder(st, keys, hash, pos, size, nOccupied) && |vals| == |keys|
    requires x < |st| && st[x] == Live
    ensures size > 0 && InOrder(st[x := Deleted], keys, hash, pos - {keys[x]}, size - 1, nOccupied)
    ensures Image(pos - {keys[x]}, vals) == Image(pos, vals) - {keys[x]}
  {
    DeleteAt(st, keys, pos, x);
    AllReachGrows(st, st[x := Deleted], hash, pos);
    assert OccupiedSet(st[x := Deleted]) == OccupiedSet(st);
  }

  lemma StoreImage<K(!new), V>(
    st: seq<Status>, keys: seq<K>, vals: seq<V>, hash: K -> nat, pos: map<K, nat>, size: nat, nOccupied: nat,
    x: nat, v: V)
    requires InOrder(st, keys, hash, pos, size, nOccupied) && |vals| == |keys|
    requires x < |st| && st[x] == Live
    ensures Image(pos, vals[x := v]) == Image(pos, vals)[keys[x] := v]
  {
  }

  lemma ImageAt<K(!new), V>(
    st: seq<Status>, keys: seq<K>, vals: seq<V>, hash: K -> nat, pos: map<K, nat>, size: nat, nOccupied: nat, x: nat)
    requires InOrder(st, keys, hash, pos, size, nOccupied) && |vals| == |keys|
    requires x < |st| && st[x] == Live
    ensures keys[x] in pos && pos[keys[x]] == x
    ensures keys[x] in Image(pos, vals) && Image(pos, vals)[keys[x]] == vals[x]
  {
  }

  lemma AbsentFromImage<K(!new), V>(
    st: seq<Status>, keys: seq<K>, vals: seq<V>, hash: K -> nat, pos: map<K, nat>, size: nat, nOccupied: nat,
    key: K, t: nat)
    requires InOrder(st, keys, hash, pos, size, nOccupied) && |vals| == |keys|
    requires Scanned(st, keys, key, hash(key), t) && st[Probe(hash(key), t, |st|)] == Empty
    ensures key !in pos && key !in Image(pos, vals)
  {
    ScanMisses(st, keys, hash, pos, key, t);
  }

  lemma RoomAhead<K(!new)>(
    st: seq<Status>, keys: seq<K>, hash: K -> nat, pos: map<K, nat>, size: nat, nOccupied: nat, h: nat, lg: nat)
    returns (t: nat)
    requires InOrder(st, keys, hash, pos, size, nOccupied) && |st| == Exp2(lg) && nOccupied < |st|
    ensures t < |st| && st[Probe(h, t, |st|)] == Empty
  {
    t := EmptyAhead(st, h, lg);
  }

  // A table that holds a tombstone is not one that has just been rehashed.
  lemma NotFresh<K(!new)>(st: seq<Status>, keys: seq<K>, hash: K -> nat, pos: map<K, nat>, size: nat, nOccupied: nat, x: nat)
    requires InOrder(st, keys, hash, pos, size, nOccupied) && x < |st| && st[x] == Deleted
    ensures size < nOccupied
  {
    LiveAtMostOccupied(st, keys, pos);
  }

  // A rehash starts from a table in order whose arrays may have been lengthened.
  lemma SplitStart<K(!new), V>(
    st: seq<Status>, keys: seq<K>, vals: seq<V>, hash: K -> nat, pos: map<K, nat>, size: nat, nOccupied: nat,
    new_: seq<Status>, keys': seq<K>, vals': seq<V>)
    requires InOrder(st, keys, hash, pos, size, nOccupied) && |keys| == |vals|
    requires |keys'| == |vals'| && |st| <= |keys'| && keys'[..|st|] == keys && vals'[..|st|] == vals
    requires 0 < |new_| <= |keys'| && forall i :: 0 <= i < |new_| ==> new_[i] == Empty
    ensures Split(st, new_, keys', vals', hash, pos, map[], Nothing, Image(pos, vals))
    ensures |Image(pos, vals)| == size
  {
    assert forall i :: 0 <= i < |st| ==> keys'[..|st|][i] == keys'[i] && vals'[..|st|][i] == vals'[i];
    assert Image(pos, vals).Keys == pos.Keys;
  }
}
