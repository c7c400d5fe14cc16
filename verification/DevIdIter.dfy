// The iterator over designation descriptors of the device identification page
// (sg_vpd_dev_id_iter in disklist.c).
module DevIdIter {
  import opened Octets

  // Association, designator type and code set to match; a negative value matches anything.
  datatype Filter = Filter(assoc: int, desigType: int, codeSet: int)

  predicate Matches(page: seq<octet>, k: nat, f: Filter)
    requires k + 4 <= |page|
  {
    && (f.codeSet < 0 || f.codeSet == (page[k] as int) % 16)
    && (f.assoc < 0 || f.assoc == ((page[k + 1] as int) / 16) % 4)
    && (f.desigType < 0 || f.desigType == (page[k + 1] as int) % 16)
  }

  // The fields of a descriptor by their places: byte 0 is the protocol p and the code set c, byte 1
  // two bits v, the association a and the designator type t.
  ghost predicate Laid(page: seq<octet>, k: nat, p: nat, c: nat, v: nat, a: nat, t: nat)
    requires k + 4 <= |page|
  {
    c < 16 && a < 4 && t < 16 && page[k] == 16 * p + c && page[k + 1] == 64 * v + 16 * a + t
  }

  // Each field of the filter that is not negative must be the descriptor's.
  ghost predicate Wanted(f: Filter, c: nat, a: nat, t: nat) {
    (f.codeSet < 0 || f.codeSet == c) && (f.assoc < 0 || f.assoc == a) && (f.desigType < 0 || f.desigType == t)
  }

  lemma MatchesMeans(page: seq<octet>, k: nat, f: Filter, p: nat, c: nat, v: nat, a: nat, t: nat)
    requires k + 4 <= |page| && Laid(page, k, p, c, v, a, t)
    ensures Matches(page, k, f) <==> Wanted(f, c, a, t)
  {
    assert (page[k + 1] as int) / 16 == 4 * v + a && (4 * v + a) % 4 == a;
  }

  // Every descriptor has such fields.
  lemma FieldsOf(page: seq<octet>, k: nat) returns (p: nat, c: nat, v: nat, a: nat, t: nat)
    requires k + 4 <= |page|
    ensures Laid(page, k, p, c, v, a, t)
  {
    var x, y := page[k] as int, page[k + 1] as int;
    p, c, v, a, t := x / 16, x % 16, y / 64, (y / 16) % 4, y % 16;
    assert y / 16 == 4 * (y / 64) + (y / 16) % 4;
  }

  // Where the descriptor after the one at k starts.
  function After(page: seq<octet>, k: nat): nat
    requires k + 4 <= |page|
  {
    k + page[k + 3] as int + 4
  }

  // The chain of descriptors from k on: their starts, and the offset at which no header fits.
  function Chain(page: seq<octet>, k: nat): seq<nat>
    decreases |page| - k
  {
    if k + 4 > |page| then [] else [k] + Chain(page, After(page, k))
  }

  function ChainEnd(page: seq<octet>, k: nat): nat
    decreases |page| - k
  {
    if k + 4 > |page| then k else ChainEnd(page, After(page, k))
  }

  // The matching descriptors, in page order.
  function Matching(page: seq<octet>, k: nat, f: Filter): seq<nat>
    decreases |page| - k
  {
    if k + 4 > |page| then []
    else if Matches(page, k, f) then [k] + Matching(page, After(page, k), f)
    else Matching(page, After(page, k), f)
  }

  // A position the iterator may be called with: before the first descriptor, or at one of them.
  ghost predicate Position(page: seq<octet>, off: int) {
    off < 0 || off in Chain(page, 0)
  }

  // Where the search starts from position off.
  function Following(page: seq<octet>, off: int): nat
    requires off + 4 <= |page|
  {
    if off < 0 then 0 else After(page, off)
  }

  // A descriptor of the chain has its header on the page, and the chain goes on behind it.
  lemma {:induction false} InChain(page: seq<octet>, s: nat, k: nat)
    requires k in Chain(page, s)
    ensures s <= k && k + 4 <= |page| && ChainEnd(page, s) == ChainEnd(page, k)
    ensures After(page, k) + 4 <= |page| ==> After(page, k) in Chain(page, s)
    decreases |page| - s
  {
    if k != s { InChain(page, After(page, s), k); }
  }

  // sg_vpd_dev_id_iter
  method Iter(page: seq<octet>, off: int, f: Filter) returns (rc: int, off': int)
    requires Position(page, off)
    ensures rc == 0 ==> off' in Chain(page, 0) && off' + 4 <= |page| && off' > off && Matches(page, off', f)
    ensures rc == 0 ==>
              forall p, c, v, a, t :: Laid(page, off', p, c, v, a, t) ==> Wanted(f, c, a, t)
    ensures rc != 0 ==> off' == off
    ensures off + 3 < |page| ==>
              var rest := Matching(page, Following(page, off), f);
              if rest != [] then rc == 0 && off' == rest[0] && rest[1..] == Matching(page, After(page, off'), f)
              else rc == if ChainEnd(page, 0) == |page| then -1 else -2
    ensures off + 3 >= |page| ==> rc == if off == |page| then -1 else -2
  {
    off' := off;
    var k := off;
    if off >= 0 { InChain(page, 0, off); }
    while k + 3 < |page|
      invariant off' == off && k >= off
      invariant k < 0 ==> k == off
      invariant k >= 0 ==> k + 4 <= |page| && k in Chain(page, 0)
      invariant off + 3 < |page| && k != off ==>
                  k >= 0 && k > off && !Matches(page, k, f)
                  && Matching(page, Following(page, off), f) == Matching(page, After(page, k), f)
      decreases |page| - k, if k < 0 then 1 else 0
    {
      if k >= 0 { InChain(page, 0, k); }
      k := if k < 0 then 0 else k + page[k + 3] as int + 4;
      if k + 4 > |page| {
        break;
      }
      if f.codeSet >= 0 && f.codeSet != (page[k] as int) % 16 {
        continue;
      }
      if f.assoc >= 0 && f.assoc != ((page[k + 1] as int) / 16) % 4 {
        continue;
      }
      if f.desigType >= 0 && f.desigType != (page[k + 1] as int) % 16 {
        continue;
      }
      off' := k;
      forall p, c, v, a, t | Laid(page, k, p, c, v, a, t) ensures Wanted(f, c, a, t) {
        MatchesMeans(page, k, f, p, c, v, a, t);
      }
      return 0, off';
    }
    rc := if k == |page| then -1 else -2;
  }

  // Calling the iterator again and again, first with any negative position and then with the one it
  // returned, yields the matching descriptors in order. The closing result is -1 exactly when the
  // descriptors end with the page; an empty page, though, is an abnormal end for a start at -1, -2 or
  // -3, from where the loop is not entered.
  method Iterate(page: seq<octet>, start: int, f: Filter) returns (found: seq<nat>, rc: int)
    requires start < 0
    ensures found == Matching(page, 0, f)
    ensures rc == -1 || rc == -2
    ensures rc == -1 <==> ChainEnd(page, 0) == |page| && (|page| > 0 || start < -3)
  {
    hide Matching, Chain, ChainEnd, Matches;
    found := [];
    var off: int;
    rc, off := Iter(page, start, f);
    ghost var left := Matching(page, 0, f);
    ShortPage(page, f);
    while rc == 0
      invariant rc == 0 ==> off in Chain(page, 0) && off + 4 <= |page| && off >= 0 && left != [] && left[0] == off
      invariant rc == 0 ==> left[1..] == Matching(page, After(page, off), f)
      invariant rc != 0 ==> left == [] && (rc == -1 || rc == -2)
      invariant rc != 0 ==> (rc == -1 <==> ChainEnd(page, 0) == |page| && (|page| > 0 || start < -3))
      invariant Matching(page, 0, f) == found + left
      decreases if rc == 0 then |page| - off + 1 else 0
    {
      found := found + [off];
      left := left[1..];
      rc, off := Iter(page, off, f);
    }
  }

  lemma ShortPage(page: seq<octet>, f: Filter)
    ensures |page| < 4 ==> Matching(page, 0, f) == [] && ChainEnd(page, 0) == 0
  {
  }

  // ---- what the chain and the matching list are ----

  lemma {:induction false} MatchingIsFilter(page: seq<octet>, s: nat, f: Filter, k: nat)
    ensures k in Matching(page, s, f) <==> k in Chain(page, s) && k + 4 <= |page| && Matches(page, k, f)
    ensures k in Matching(page, s, f) <==>
            k in Chain(page, s) && k + 4 <= |page| &&
            exists p, c, v, a, t :: Laid(page, k, p, c, v, a, t) && Wanted(f, c, a, t)
    decreases |page| - s
  {
    if k + 4 <= |page| {
      var p, c, v, a, t := FieldsOf(page, k);
      MatchesMeans(page, k, f, p, c, v, a, t);
      if p', c', v', a', t' :| Laid(page, k, p', c', v', a', t') && Wanted(f, c', a', t') {
        MatchesMeans(page, k, f, p', c', v', a', t');
      }
    }
    if s + 4 <= |page| { MatchingIsFilter(page, After(page, s), f, k); }
  }

  lemma {:induction false} MatchingInOrder(page: seq<octet>, s: nat, f: Filter)
    ensures forall i, j :: 0 <= i < j < |Matching(page, s, f)| ==> Matching(page, s, f)[i] < Matching(page, s, f)[j]
    ensures forall k :: k in Matching(page, s, f) ==> k >= s
    decreases |page| - s
  {
    if s + 4 <= |page| {
      MatchingInOrder(page, After(page, s), f);
      var m, rest := Matching(page, s, f), Matching(page, After(page, s), f);
      if Matches(page, s, f) {
        forall i, j | 0 <= i < j < |m| ensures m[i] < m[j] {
          assert m[j] == rest[j - 1] && rest[j - 1] in rest;
          if i > 0 { assert m[i] == rest[i - 1]; }
        }
      }
    }
  }

  // The bytes of the descriptors, headers and bodies.
  function TotalLength(page: seq<octet>, ks: seq<nat>): nat
    requires forall i :: 0 <= i < |ks| ==> ks[i] + 4 <= |page|
  {
    if ks == [] then 0 else 4 + page[ks[0] + 3] as int + TotalLength(page, ks[1..])
  }

  lemma {:induction false} ChainOnPage(page: seq<octet>, s: nat)
    ensures forall i :: 0 <= i < |Chain(page, s)| ==> Chain(page, s)[i] + 4 <= |page|
    decreases |page| - s
  {
    if s + 4 <= |page| { ChainOnPage(page, After(page, s)); }
  }

  // The chain ends with the page exactly when the descriptors' lengths add up to it.
  lemma {:induction false} ChainEndIsTotal(page: seq<octet>, s: nat)
    ensures forall i :: 0 <= i < |Chain(page, s)| ==> Chain(page, s)[i] + 4 <= |page|
    ensures ChainEnd(page, s) == s + TotalLength(page, Chain(page, s))
    decreases |page| - s
  {
    ChainOnPage(page, s);
    if s + 4 <= |page| {
      ChainEndIsTotal(page, After(page, s));
      assert Chain(page, s)[1..] == Chain(page, After(page, s));
    }
  }
}
