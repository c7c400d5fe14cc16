// The Internet checksum of batchping.c (the same in liveping.c and sbping.c): a ones'-complement
// sum of 16-bit words, after sections 1 and 2(B) of RFC 1071.
module Checksum {
  import opened Octets

  type word = x: int | 0 <= x < 0x1_0000

  // The 16-bit load *(uint16_t*)(buf + i) on a little- or big-endian machine, and the matching store.
  function Load(lo: octet, hi: octet, little: bool): word {
    if little then 256 * (hi as int) + lo as int else 256 * (lo as int) + hi as int
  }

  function Words(buf: seq<octet>, little: bool): (ws: seq<word>)
    requires |buf| % 2 == 0
    ensures |ws| == |buf| / 2
  {
    seq(|buf| / 2, i requires 0 <= i < |buf| / 2 => Load(buf[2 * i], buf[2 * i + 1], little))
  }

  function StoreWord(w: word, little: bool): seq<octet> {
    if little then [(w as int) % 256, (w as int) / 256] else [(w as int) / 256, (w as int) % 256]
  }

  function Sum(ws: seq<word>): nat {
    if ws == [] then 0 else Sum(ws[..|ws| - 1]) + ws[|ws| - 1] as int
  }

  // It adds up: these two facts leave no other value, not even for the empty sequence.
  lemma {:induction false} SumConcat(a: seq<word>, b: seq<word>)
    ensures Sum(a + b) == Sum(a) + Sum(b)
  {
    if b == [] {
      assert a + b == a;
    } else {
      var n := |b| - 1;
      SumConcat(a, b[..n]);
      assert (a + b)[..|a| + n] == a + b[..n];
    }
  }

  lemma SumOne(w: word)
    ensures Sum([w]) == w as int
  {
    assert [w][..0] == [];
  }

  // The value of a ones'-complement sum: the number congruent to s modulo 65535, where 65535
  // itself stands for every non-zero multiple.
  function Ones(s: nat): word {
    if s == 0 then 0 else (s - 1) % 0xFFFF + 1
  }

  function Csum(ws: seq<word>): word {
    0xFFFF - Ones(Sum(ws))
  }

  // Folding the carry back in is addition of ones'-complement values.
  lemma FoldIsOnes(s: nat, w: word)
    ensures var t := Ones(s) as int + w as int;
            Ones(s + w) == if t >= 0x1_0000 then t % 0x1_0000 + t / 0x1_0000 else t
  {
    if s > 0 {
      var q, r := (s - 1) / 0xFFFF, (s - 1) % 0xFFFF;
      assert s + w as int - 1 == 0xFFFF * q + (r + w as int);
    }
  }

  // calc_csum
  method CalcCsum(buf: seq<octet>, little: bool) returns (r: word)
    requires |buf| % 2 == 0 && |buf| < 0x1_0000
    ensures r == Csum(Words(buf, little))
    ensures buf == [] ==> r == 0xFFFF
    ensures |buf| == 2 && little ==> r as int == 0xFFFF - (buf[0] as int + 256 * buf[1] as int)
    ensures |buf| == 2 && !little ==> r as int == 0xFFFF - (256 * buf[0] as int + buf[1] as int)
  {
    hide Load, Ones;
    ghost var ws := Words(buf, little);
    var csum: int := 0;
    OnesUnique(0, 0, 0);
    var i := 0;
    while i < |buf|
      invariant 0 <= i <= |buf| && i % 2 == 0
      invariant csum == Ones(Sum(ws[..i / 2]))
    {
      ghost var before := Sum(ws[..i / 2]);
      assert ws[..i / 2 + 1][..i / 2] == ws[..i / 2];
      FoldIsOnes(before, ws[i / 2]);
      csum := csum + Load(buf[i], buf[i + 1], little);
      if (csum / 0x1_0000) % 2 == 1 {
        csum := csum % 0x1_0000 + csum / 0x1_0000;
      }
      i := i + 2;
    }
    assert ws[..|buf| / 2] == ws;
    csum := FoldCarries(csum);
    OnesUnique(Ones(Sum(ws)), Ones(Sum(ws)), 0);
    r := 0xFFFF - csum;
    if buf == [] {
      SmallCsums(0, 0);
    } else if |buf| == 2 {
      SmallCsums(buf[0], buf[1]);
      assert buf == [buf[0], buf[1]];
    }
  }

  // The checksums of nothing and of one pair of bytes, by their values.
  lemma SmallCsums(lo: octet, hi: octet)
    ensures Csum(Words([], true)) == Csum(Words([], false)) == 0xFFFF
    ensures Csum(Words([lo, hi], true)) as int == 0xFFFF - (lo as int + 256 * hi as int)
    ensures Csum(Words([lo, hi], false)) as int == 0xFFFF - (256 * lo as int + hi as int)
  {
    var le, be: word := lo as int + 256 * hi as int, 256 * lo as int + hi as int;
    assert Words([lo, hi], true) == [le] && Words([lo, hi], false) == [be];
    SumOne(le);
    SumOne(be);
    OnesUnique(le, le, 0);
    OnesUnique(be, be, 0);
    SumConcat([], []);
    OnesUnique(0, 0, 0);
  }

  // The closing loop of calc_csum, for any sum.
  method FoldCarries(s: nat) returns (csum: nat)
    ensures csum == Ones(s)
  {
    csum := s;
    while csum / 0x1_0000 != 0
      invariant Ones(csum) == Ones(s)
      decreases csum
    {
      var hi := csum / 0x1_0000;
      SameOnes(csum, csum % 0x1_0000 + hi, hi);
      csum := csum % 0x1_0000 + csum / 0x1_0000;
    }
    OnesUnique(csum, csum, 0);
  }

  lemma OnesUnique(s: nat, v: nat, k: int)
    requires s == 0xFFFF * k + v && v < 0x1_0000 && (s == 0 <==> v == 0)
    ensures Ones(s) == v
  {
    if s > 0 {
      assert s - 1 == 0xFFFF * k + (v - 1);
    }
  }

  lemma SameOnes(s: nat, t: nat, k: int)
    requires s == t + 0xFFFF * k && (s == 0 <==> t == 0)
    ensures Ones(s) == Ones(t)
  {
    if t > 0 {
      var q := (t - 1) / 0xFFFF;
      OnesUnique(s, Ones(t), q + k);
    }
  }

  lemma {:induction false} SumUpdate(ws: seq<word>, k: nat, w: word)
    requires k < |ws|
    ensures Sum(ws[k := w]) == Sum(ws) - ws[k] as int + w as int
  {
    var n := |ws| - 1;
    if k == n {
      assert ws[k := w][..n] == ws[..n];
    } else {
      SumUpdate(ws[..n], k, w);
      assert ws[k := w][..n] == ws[..n][k := w];
    }
  }

  // The checksum is zero exactly for a non-zero sum divisible by 65535.
  lemma CsumZero(ws: seq<word>)
    ensures Csum(ws) == 0 <==> Sum(ws) > 0 && Sum(ws) % 0xFFFF == 0
  {
  }

  // Storing the checksum in the field that was zero makes the receiver's checksum zero.
  lemma StampedIsValid(ws: seq<word>, k: nat)
    requires k < |ws| && ws[k] == 0
    ensures Csum(ws[k := Csum(ws)]) == 0
  {
    SumUpdate(ws, k, Csum(ws));
    CsumZero(ws[k := Csum(ws)]);
    var s := Sum(ws);
    if s > 0 {
      assert s == 0xFFFF * ((s - 1) / 0xFFFF) + Ones(s) as int;
    }
  }

  // Altering one word of a valid packet goes unnoticed exactly when it exchanges 0x0000 and
  // 0xFFFF in a packet that is not all zero afterwards.
  lemma AlterationSeen(ws: seq<word>, k: nat, w: word)
    requires k < |ws| && Csum(ws) == 0 && w != ws[k]
    ensures Csum(ws[k := w]) == 0 <==>
            Sum(ws[k := w]) > 0 && ((ws[k] == 0 && w == 0xFFFF) || (ws[k] == 0xFFFF && w == 0))
  {
    SumUpdate(ws, k, w);
    CsumZero(ws);
    CsumZero(ws[k := w]);
    var d := w as int - ws[k] as int;
    assert Sum(ws) == 0xFFFF * (Sum(ws) / 0xFFFF);
    assert (Sum(ws) + d) % 0xFFFF == 0 <==> d == 0xFFFF || d == -0xFFFF;
  }

  // ---- byte order ----

  function Swap(w: word): word {
    256 * ((w as int) % 256) + (w as int) / 256
  }

  function SwapAll(ws: seq<word>): seq<word> {
    seq(|ws|, i requires 0 <= i < |ws| => Swap(ws[i]))
  }

  lemma {:induction false} SwappedSum(ws: seq<word>) returns (q: int)
    ensures Sum(SwapAll(ws)) == 256 * Sum(ws) - 0xFFFF * q
    ensures Sum(SwapAll(ws)) == 0 <==> Sum(ws) == 0
  {
    if ws == [] {
      q := 0;
    } else {
      var n := |ws| - 1;
      q := SwappedSum(ws[..n]);
      assert SwapAll(ws)[..n] == SwapAll(ws[..n]);
      q := q + (ws[n] as int) / 256;
    }
  }

  lemma OnesSwaps(s: nat, t: nat, q: int)
    requires t == 256 * s - 0xFFFF * q && (t == 0 <==> s == 0)
    ensures Ones(t) == Swap(Ones(s))
  {
    var o := Ones(s) as int;
    SwapIsTimes256(o);
    if s > 0 {
      var m := (s - 1) / 0xFFFF;
      assert s == 0xFFFF * m + o;
      OnesUnique(t, Swap(o), 256 * m - q + o / 256);
    }
  }

  lemma SwapIsTimes256(w: word)
    ensures Swap(w) as int == 256 * (w as int) - 0xFFFF * ((w as int) / 256)
    ensures Swap(w) == 0 <==> w == 0
  {
  }

  lemma SwapComplement(o: word)
    ensures Swap(0xFFFF - o) == 0xFFFF - Swap(o)
  {
  }

  // Byte-swapping every word byte-swaps the checksum.
  lemma CsumSwaps(ws: seq<word>)
    ensures Csum(SwapAll(ws)) == Swap(Csum(ws))
  {
    hide Swap, Ones;
    var q := SwappedSum(ws);
    OnesSwaps(Sum(ws), Sum(SwapAll(ws)), q);
    SwapComplement(Ones(Sum(ws)));
  }

  lemma LoadSwaps(lo: octet, hi: octet, little: bool)
    ensures Load(lo, hi, !little) == Swap(Load(lo, hi, little))
  {
    if little { SwapHalves(hi, lo); } else { SwapHalves(lo, hi); }
  }

  lemma SwapHalves(hi: octet, lo: octet)
    ensures Swap(256 * (hi as int) + lo as int) == 256 * (lo as int) + hi as int
  {
    var w := 256 * (hi as int) + lo as int;
    assert w / 256 == hi && w % 256 == lo;
  }

  lemma WordsSwap(buf: seq<octet>, little: bool)
    requires |buf| % 2 == 0
    ensures Words(buf, !little) == SwapAll(Words(buf, little))
  {
    hide Load, Swap;
    forall i | 0 <= i < |buf| / 2 ensures Words(buf, !little)[i] == SwapAll(Words(buf, little))[i] {
      LoadSwaps(buf[2 * i], buf[2 * i + 1], little);
    }
  }

  lemma StoreSwaps(w: word)
    ensures StoreWord(Swap(w), false) == StoreWord(w, true)
  {
  }

  // The comment in send_ping: no byte-order conversion is needed, since machines of either
  // byte order put the same two bytes in the packet.
  lemma SameBytesOnEitherMachine(buf: seq<octet>)
    requires |buf| % 2 == 0
    ensures StoreWord(Csum(Words(buf, false)), false) == StoreWord(Csum(Words(buf, true)), true)
  {
    hide StoreWord, Csum, Swap;
    WordsSwap(buf, true);
    CsumSwaps(Words(buf, true));
    StoreSwaps(Csum(Words(buf, true)));
  }

  // ---- in the packet ----

  // The end of send_ping: clear the checksum field at byte `at`, compute, and store it there. The
  // packet then passes the receiver's test, on a receiver of either byte order.
  method Stamp(buf: array<octet>, at: nat, little: bool)
    requires buf.Length % 2 == 0 && buf.Length < 0x1_0000 && at % 2 == 0 && at + 2 <= buf.Length
    modifies buf
    ensures forall i :: 0 <= i < buf.Length && i != at && i != at + 1 ==> buf[i] == old(buf[i])
    ensures Csum(Words(buf[..], little)) == 0 && Csum(Words(buf[..], !little)) == 0
  {
    buf[at], buf[at + 1] := 0, 0;
    ghost var ws := Words(buf[..], little);
    var c := CalcCsum(buf[..], little);
    StampedIsValid(ws, at / 2);
    var bytes := StoreWord(c, little);
    buf[at], buf[at + 1] := bytes[0], bytes[1];
    assert Load(bytes[0], bytes[1], little) == c;
    assert Words(buf[..], little) == ws[at / 2 := c];
    ValidEitherWay(buf[..], little);
  }

  lemma ValidEitherWay(buf: seq<octet>, little: bool)
    requires |buf| % 2 == 0 && Csum(Words(buf, little)) == 0
    ensures Csum(Words(buf, !little)) == 0
  {
    WordsSwap(buf, little);
    CsumSwaps(Words(buf, little));
  }

  // The test in handle_ping_reply: a packet is taken exactly when its checksum is zero.
  method Accept(packet: seq<octet>, little: bool) returns (ok: bool)
    requires |packet| % 2 == 0 && |packet| < 0x1_0000
    ensures ok <==> Sum(Words(packet, little)) > 0 && Sum(Words(packet, little)) % 0xFFFF == 0
  {
    var c := CalcCsum(packet, little);
    CsumZero(Words(packet, little));
    ok := c == 0;
  }
}
