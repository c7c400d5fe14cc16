// The 2-bit bucket flags of khash, sixteen to a 32-bit word (ConfCli.c, the __ac_ macros).
module KhashFlags {
  datatype Status = Empty | Deleted | Live

  const SHIFTS: seq<bv32> := [0, 2, 4, 6, 8, 10, 12, 14, 16, 18, 20, 22, 24, 26, 28, 30]

  // (i & 0xf) << 1, the position of a bucket's two bits inside its word.
  function Shift(i: nat): (r: bv32)
    ensures r == SHIFTS[i % 16] <= 30 && r & 1 == 0
  {
    var s := i % 16;
    assert s == 0 || s == 1 || s == 2 || s == 3 || s == 4 || s == 5 || s == 6 || s == 7 || s == 8
           || s == 9 || s == 10 || s == 11 || s == 12 || s == 13 || s == 14 || s == 15;
    (s as bv32) << 1
  }

  // The two bits of bucket i.
  function Bits(w: bv32, shift: bv32): bv32
    requires shift <= 30
  {
    (w >> shift) & 3
  }

  function Code(s: Status): bv32 {
    match s case Live => 0 case Deleted => 1 case Empty => 2
  }

  function WordCount(m: nat): nat {
    if m < 16 then 1 else m / 16
  }

  // Two buckets share their bits exactly when they share both the word and the position.
  lemma ShiftInjective(i: nat, j: nat)
    requires i / 16 == j / 16
    ensures Shift(i) == Shift(j) <==> i == j
  {
    hide Shift;
    assert forall a, b :: 0 <= a < b < 16 ==> SHIFTS[a] != SHIFTS[b];
  }

  lemma SetBitTouchesOneSlot(w: bv32, a: bv32, b: bv32)
    requires a <= 30 && b <= 30 && a & 1 == 0 && b & 1 == 0
    ensures Bits(w | (1 << a), b) == if a == b then Bits(w, b) | 1 else Bits(w, b)
  {
  }

  lemma ClearEmptyTouchesOneSlot(w: bv32, a: bv32, b: bv32)
    requires a <= 30 && b <= 30 && a & 1 == 0 && b & 1 == 0
    ensures Bits(w & !(2 << a), b) == if a == b then Bits(w, b) & 1 else Bits(w, b)
  {
  }

  lemma ClearBothTouchesOneSlot(w: bv32, a: bv32, b: bv32)
    requires a <= 30 && b <= 30 && a & 1 == 0 && b & 1 == 0
    ensures Bits(w & !(3 << a), b) == if a == b then 0 else Bits(w, b)
  {
  }

  lemma AllEmptyWord(b: bv32)
    requires b <= 30 && b & 1 == 0
    ensures Bits(0xaaaa_aaaa, b) == 2
  {
  }

  // The packed words ws say of each bucket what view says.
  ghost predicate Encodes(ws: seq<bv32>, view: seq<Status>) {
    && |view| <= 16 * |ws|
    && forall i :: 0 <= i < |view| ==> Bits(ws[i / 16], Shift(i)) == Code(view[i])
  }

  // Word w with one bucket's bits replaced by the code of s, and the other fifteen kept.
  ghost predicate Rewrites(w: bv32, w': bv32, shift: bv32, s: Status) {
    forall b: bv32 :: b <= 30 && b & 1 == 0 ==> Bits(w', b) == if b == shift then Code(s) else Bits(w, b)
  }

  lemma RewriteEncodes(ws: seq<bv32>, view: seq<Status>, i: nat, w': bv32, s: Status)
    requires Encodes(ws, view) && i < |view|
    requires Rewrites(ws[i / 16], w', Shift(i), s)
    ensures Encodes(ws[i / 16 := w'], view[i := s])
  {
    hide Bits, Shift;
    forall j | 0 <= j < |view|
      ensures Bits(ws[i / 16 := w'][j / 16], Shift(j)) == Code(view[i := s][j])
    {
      if j / 16 == i / 16 { ShiftInjective(i, j); }
    }
  }

  lemma SetDeletedRewrites(w: bv32, shift: bv32)
    requires shift <= 30 && shift & 1 == 0 && Bits(w, shift) == 0
    ensures Rewrites(w, w | (1 << shift), shift, Deleted)
  {
    forall b: bv32 | b <= 30 && b & 1 == 0
      ensures Bits(w | (1 << shift), b) == if b == shift then Code(Deleted) else Bits(w, b)
    {
      SetBitTouchesOneSlot(w, shift, b);
    }
  }

  lemma SetDeletedEncodes(ws: seq<bv32>, view: seq<Status>, i: nat)
    requires Encodes(ws, view) && i < |view| && view[i] == Live
    ensures Encodes(ws[i / 16 := ws[i / 16] | (1 << Shift(i))], view[i := Deleted])
  {
    hide Bits, Rewrites, Shift;
    SetDeletedRewrites(ws[i / 16], Shift(i));
    RewriteEncodes(ws, view, i, ws[i / 16] | (1 << Shift(i)), Deleted);
  }

  lemma OccupyRewrites(w: bv32, shift: bv32)
    requires shift <= 30 && shift & 1 == 0 && Bits(w, shift) == 2
    ensures Rewrites(w, w & !(2 << shift), shift, Live)
  {
    forall b: bv32 | b <= 30 && b & 1 == 0
      ensures Bits(w & !(2 << shift), b) == if b == shift then Code(Live) else Bits(w, b)
    {
      ClearEmptyTouchesOneSlot(w, shift, b);
    }
  }

  lemma OccupyEncodes(ws: seq<bv32>, view: seq<Status>, i: nat)
    requires Encodes(ws, view) && i < |view| && view[i] == Empty
    ensures Encodes(ws[i / 16 := ws[i / 16] & !(2 << Shift(i))], view[i := Live])
  {
    hide Bits, Rewrites, Shift;
    OccupyRewrites(ws[i / 16], Shift(i));
    RewriteEncodes(ws, view, i, ws[i / 16] & !(2 << Shift(i)), Live);
  }

  lemma SetLiveRewrites(w: bv32, shift: bv32)
    requires shift <= 30 && shift & 1 == 0
    ensures Rewrites(w, w & !(3 << shift), shift, Live)
  {
    forall b: bv32 | b <= 30 && b & 1 == 0
      ensures Bits(w & !(3 << shift), b) == if b == shift then Code(Live) else Bits(w, b)
    {
      ClearBothTouchesOneSlot(w, shift, b);
    }
  }

  lemma SetLiveEncodes(ws: seq<bv32>, view: seq<Status>, i: nat)
    requires Encodes(ws, view) && i < |view|
    ensures Encodes(ws[i / 16 := ws[i / 16] & !(3 << Shift(i))], view[i := Live])
  {
    hide Bits, Rewrites, Shift;
    SetLiveRewrites(ws[i / 16], Shift(i));
    RewriteEncodes(ws, view, i, ws[i / 16] & !(3 << Shift(i)), Live);
  }

  // A flag array: packed words, and what they say about each bucket.
  class FlagArray {
    const words: array<bv32>
    ghost var view: seq<Status>

    ghost predicate Valid()
      reads this, words
    {
      Encodes(words[..], view)
    }

    // kmalloc of __ac_fsize(m) words followed by the memset to 0xaa: every bucket empty.
    constructor (m: nat)
      requires m < 16 || m % 16 == 0
      ensures Valid() && fresh(words)
      ensures view == seq(m, _ => Empty)
    {
      words := new bv32[WordCount(m)](_ => 0xaaaa_aaaa);
      view := seq(m, _ => Empty);
      new;
      forall i | 0 <= i < m ensures Bits(words[i / 16], Shift(i)) == Code(Empty) {
        AllEmptyWord(Shift(i));
      }
    }

    // memset(flags, 0xaa, ...)
    method Clear()
      requires Valid()
      modifies this, words
      ensures Valid() && view == seq(|old(view)|, _ => Empty)
    {
      for w := 0 to words.Length
        invariant view == old(view)
        invariant forall v :: 0 <= v < w ==> words[v] == 0xaaaa_aaaa
      {
        words[w] := 0xaaaa_aaaa;
      }
      view := seq(|view|, _ => Empty);
      forall i | 0 <= i < |view| ensures Bits(words[i / 16], Shift(i)) == Code(Empty) {
        AllEmptyWord(Shift(i));
      }
    }

    predicate IsEmpty(i: nat)
      requires Valid() && i < |view|
      reads this, words
      ensures IsEmpty(i) <==> view[i] == Empty
    {
      (words[i / 16] >> Shift(i)) & 2 != 0
    }

    predicate IsDeleted(i: nat)
      requires Valid() && i < |view|
      reads this, words
      ensures IsDeleted(i) <==> view[i] == Deleted
    {
      (words[i / 16] >> Shift(i)) & 1 != 0
    }

    predicate IsEither(i: nat)
      requires Valid() && i < |view|
      reads this, words
      ensures IsEither(i) <==> view[i] != Live
    {
      (words[i / 16] >> Shift(i)) & 3 != 0
    }

    // __ac_set_isdel_true on a live bucket
    method SetDeleted(i: nat)
      requires Valid() && i < |view| && view[i] == Live
      modifies this, words
      ensures Valid() && view == old(view)[i := Deleted]
    {
      ghost var ws := words[..];
      SetDeletedEncodes(ws, view, i);
      words[i / 16] := words[i / 16] | (1 << Shift(i));
      assert words[..] == ws[i / 16 := words[i / 16]];
      view := view[i := Deleted];
    }

    // __ac_set_isempty_false on an empty bucket
    method Occupy(i: nat)
      requires Valid() && i < |view| && view[i] == Empty
      modifies this, words
      ensures Valid() && view == old(view)[i := Live]
    {
      ghost var ws := words[..];
      OccupyEncodes(ws, view, i);
      words[i / 16] := words[i / 16] & !(2 << Shift(i));
      assert words[..] == ws[i / 16 := words[i / 16]];
      view := view[i := Live];
    }

    // __ac_set_isboth_false on a bucket in any state
    method SetLive(i: nat)
      requires Valid() && i < |view|
      modifies this, words
      ensures Valid() && view == old(view)[i := Live]
    {
      ghost var ws := words[..];
      SetLiveEncodes(ws, view, i);
      words[i / 16] := words[i / 16] & !(3 << Shift(i));
      assert words[..] == ws[i / 16 := words[i / 16]];
      view := view[i := Live];
    }
  }
}
