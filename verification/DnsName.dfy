// Host names in DNS messages (dnsq.c): the encoder ChangetoDnsNameFormat and the decoder
// ReadName with its compression pointers, in the format of sections 3.1 and 4.1.4 of RFC 1035.
module DnsName {
  import opened Octets

  const DOT: octet := 46
  const JUMP_MARK: octet := 192

  type Label = seq<octet>

  // Labels as length-prefixed strings, without and with the terminating zero byte. The length
  // is stored in one byte, as the C assignment does.
  function Flat(ls: seq<Label>): seq<octet> {
    if ls == [] then [] else [|ls[0]| % 256] + ls[0] + Flat(ls[1..])
  }

  function Wire(ls: seq<Label>): seq<octet> {
    Flat(ls) + [0]
  }

  // Labels each followed by a dot, and the usual dotted name.
  function Dotted(ls: seq<Label>): seq<octet> {
    if ls == [] then [] else ls[0] + [DOT] + Dotted(ls[1..])
  }

  function Join(ls: seq<Label>): seq<octet>
    requires ls != []
  {
    if |ls| == 1 then ls[0] else ls[0] + [DOT] + Join(ls[1..])
  }

  // A name cut at its dots.
  function Split(h: seq<octet>): (ls: seq<Label>)
    ensures ls != []
  {
    if h == [] then [[]]
    else if h[0] == DOT then [[]] + Split(h[1..])
    else var ls := Split(h[1..]); [[h[0]] + ls[0]] + ls[1..]
  }

  lemma {:induction false} JoinSplit(h: seq<octet>)
    ensures Join(Split(h)) == h
  {
    if h != [] {
      JoinSplit(h[1..]);
      var ls := Split(h[1..]);
      if h[0] == DOT {
        assert Split(h)[1..] == ls;
      } else {
        assert Split(h)[1..] == ls[1..];
      }
    }
  }

  ghost predicate DotFree(l: Label) { DOT !in l }

  lemma {:induction false} SplitDotFree(h: seq<octet>)
    ensures forall i :: 0 <= i < |Split(h)| ==> DotFree(Split(h)[i])
  {
    if h != [] { SplitDotFree(h[1..]); }
  }

  lemma {:induction false} SplitLabel(l: Label)
    requires DotFree(l)
    ensures Split(l) == [l]
  {
    if l != [] {
      SplitLabel(l[1..]);
      assert l == [l[0]] + l[1..];
    }
  }

  lemma {:induction false} SplitAtDot(l: Label, rest: seq<octet>)
    requires DotFree(l)
    ensures Split(l + [DOT] + rest) == [l] + Split(rest)
  {
    var h := l + [DOT] + rest;
    if l == [] {
      assert h[1..] == rest;
    } else {
      SplitAtDot(l[1..], rest);
      assert h[1..] == l[1..] + [DOT] + rest && h[0] == l[0];
      var ls := [l[1..]] + Split(rest);
      assert ls[1..] == Split(rest) && [l[0]] + l[1..] == l;
    }
  }

  // Cutting a joined name gives back its labels.
  lemma {:induction false} SplitJoin(ls: seq<Label>)
    requires ls != [] && forall i :: 0 <= i < |ls| ==> DotFree(ls[i])
    ensures Split(Join(ls)) == ls
  {
    if |ls| == 1 {
      SplitLabel(ls[0]);
    } else {
      SplitJoin(ls[1..]);
      SplitAtDot(ls[0], Join(ls[1..]));
    }
  }

  lemma {:induction false} FlatAppend(a: seq<Label>, b: seq<Label>)
    ensures Flat(a + b) == Flat(a) + Flat(b)
  {
    if a == [] {
      assert a + b == b;
    } else {
      FlatAppend(a[1..], b);
      assert (a + b)[0] == a[0] && (a + b)[1..] == a[1..] + b;
    }
  }

  lemma {:induction false} DottedAppend(a: seq<Label>, b: seq<Label>)
    ensures Dotted(a + b) == Dotted(a) + Dotted(b)
  {
    if a == [] {
      assert a + b == b;
    } else {
      DottedAppend(a[1..], b);
      assert (a + b)[0] == a[0] && (a + b)[1..] == a[1..] + b;
    }
  }

  lemma {:induction false} DottedIsJoin(ls: seq<Label>)
    requires ls != []
    ensures Dotted(ls) == Join(ls) + [DOT] && |Dotted(ls)| == |Flat(ls)|
  {
    if |ls| == 1 {
      assert ls[1..] == [];
    } else {
      DottedIsJoin(ls[1..]);
    }
  }

  lemma {:induction false} DottedLength(ls: seq<Label>)
    ensures |Dotted(ls)| == |Flat(ls)|
  {
    if ls != [] { DottedLength(ls[1..]); }
  }

  // What the two forms are, by their values: labels joined by the byte 46, and each behind its length.
  lemma FormsAre(l: Label, ls: seq<Label>)
    requires ls != [] && |l| < 256
    ensures Join([l]) == l && Join([l] + ls) == l + [46] + Join(ls)
    ensures Wire([]) == [0] && Wire([l] + ls) == [|l|] + l + Wire(ls)
  {
    assert ([l] + ls)[1..] == ls && ([l] + ls)[0] == l;
  }

  // The name of bytes 119 119 119 46 97 98, for instance, is sent as 3 119 119 119 2 97 98 0.
  lemma WireExample()
    ensures Wire(Split([119, 119, 119, 46, 97, 98])) == [3, 119, 119, 119, 2, 97, 98, 0]
  {
    var a: Label, b: Label := [119, 119, 119], [97, 98];
    var ls := [a] + [b];
    FormsAre(b, ls);
    FormsAre(a, [b]);
    assert ls[0] == a && ls[1] == b;
    SplitJoin(ls);
    assert Join(ls) == [119, 119, 119, 46, 97, 98];
    FlatOne(b);
    assert Wire([b]) == [2, 97, 98, 0];
  }

  // ---- ChangetoDnsNameFormat ----

  // The C string in an array: everything before its first zero byte.
  ghost predicate CString(a: seq<octet>, n: nat) {
    n < |a| && a[n] == 0 && 0 !in a[..n]
  }

  // The encoder appends a dot to the host name, in place, and writes the wire form to dns.
  method ChangetoDnsNameFormat(dns: array<octet>, host: array<octet>, ghost n: nat) returns (written: nat)
    requires dns != host && CString(host[..], n) && n + 1 < host.Length && n + 2 <= dns.Length
    modifies dns, host
    ensures written == n + 2 && dns[..written] == Wire(Split(old(host[..n])))
    ensures host[..n + 2] == old(host[..n]) + [46, 0] && host[n + 2..] == old(host[n + 2..])
    ensures dns[written..] == old(dns[written..])
  {
    hide Flat, Split;
    ghost var h, hostTail := host[..n], host[n + 2..];
    var len := StrLen(host, n);
    host[len], host[len + 1] := DOT, 0;
    len := len + 1;
    ghost var hs := host[..];
    assert hs == h + [DOT, 0] + hostTail;
    var lock, d, i := 0, 0, 0;
    ghost var done: seq<Label>, tail := [], dns[n + 2..];
    SplitAtStart(h);
    FlatNone();
    while i < len
      invariant 0 <= lock <= i <= len == n + 1 && d == lock
      invariant host[..] == hs
      invariant lock <= n ==> Split(h) == done + Split(h[lock..]) && DOT !in hs[lock..i]
      invariant lock == n + 1 ==> Split(h) == done && i == n + 1
      invariant dns[..d] == Flat(done) && dns[n + 2..] == tail
    {
      if host[i] == DOT {
        ghost var l := hs[lock..i];
        assert hs[..n + 1] == h + [DOT] && hs[..n + 1][lock..i] == l;
        TakeLabel(h, hs[..n + 1], lock, i);
        EmitLabel(dns, d, host, lock, i, done);
        d := d + 1 + (i - lock);
        lock := i + 1;
        done := done + [l];
      }
      i := i + 1;
    }
    dns[d] := 0;
    written := d + 1;
  }

  lemma FlatOne(l: Label)
    ensures Flat([l]) == [|l| % 256] + l
  {
    assert [l][1..] == [];
  }

  lemma FlatNone()
    ensures Flat([]) == []
  {
  }

  // One label: its length byte, then the inner loop copying the bytes host[lock..i].
  method EmitLabel(dns: array<octet>, d: nat, host: array<octet>, lock: nat, i: nat, ghost done: seq<Label>)
    requires dns != host && lock <= i <= host.Length && d + 1 + (i - lock) <= dns.Length
    requires dns[..d] == Flat(done)
    modifies dns
    ensures dns[..d + 1 + (i - lock)] == Flat(done + [host[lock..i]])
    ensures dns[d + 1 + (i - lock)..] == old(dns[d + 1 + (i - lock)..])
  {
    hide Flat;
    ghost var before := dns[..];
    dns[d] := (i - lock) % 256;
    var k := lock;
    while k < i
      invariant lock <= k <= i
      invariant forall j :: 0 <= j < d ==> dns[j] == before[j]
      invariant dns[d] == (i - lock) % 256
      invariant forall j :: lock <= j < k ==> dns[d + 1 + (j - lock)] == host[j]
      invariant forall j :: d + 1 + (k - lock) <= j < dns.Length ==> dns[j] == before[j]
    {
      dns[d + 1 + (k - lock)] := host[k];
      k := k + 1;
    }
    ghost var l, e := host[lock..i], d + 1 + (i - lock);
    FlatAppend(done, [l]);
    FlatOne(l);
    assert dns[..e] == before[..d] + [|l| % 256] + l by {
      forall j | 0 <= j < e ensures dns[j] == (before[..d] + [|l| % 256] + l)[j] {
        if j > d { assert dns[d + 1 + (lock + (j - d - 1) - lock)] == host[lock + (j - d - 1)]; }
      }
    }
    assert before[..d] + [|l| % 256] + l == before[..d] + ([|l| % 256] + l);
  }

  method StrLen(a: array<octet>, ghost n: nat) returns (len: nat)
    requires CString(a[..], n)
    ensures len == n
  {
    len := 0;
    while a[len] != 0
      invariant len <= n
      decreases n - len
    {
      len := len + 1;
    }
  }

  lemma SplitAtStart(h: seq<octet>)
    ensures Split(h) == [] + Split(h[0..])
  {
    assert h[0..] == h;
  }

  // The label between two dots, or before the one that was appended, is the next one of the name.
  lemma TakeLabel(h: seq<octet>, hd: seq<octet>, lock: nat, i: nat)
    requires hd == h + [DOT] && lock <= i <= |h| && hd[i] == DOT && DOT !in hd[lock..i]
    ensures i < |h| ==> Split(h[lock..]) == [hd[lock..i]] + Split(h[i + 1..])
    ensures i == |h| ==> Split(h[lock..]) == [hd[lock..i]]
  {
    var l := hd[lock..i];
    assert l == h[lock..i];
    if i < |h| {
      SplitAtDot(l, h[i + 1..]);
      assert h[lock..] == l + [DOT] + h[i + 1..];
    } else {
      SplitLabel(l);
    }
  }

  // ---- ReadName ----

  // The offset a compression pointer at pos carries.
  function Target(buf: seq<octet>, pos: nat): int
    requires pos + 1 < |buf|
  {
    (buf[pos] as int) * 256 + buf[pos + 1] as int - 49152
  }

  // The scan from pos, within a stretch of the message begun at start, ends: every pointer it
  // meets leads to before the start of its stretch.
  ghost predicate Backward(buf: seq<octet>, pos: nat, start: nat)
    decreases start, |buf| - pos
  {
    pos < |buf| &&
    if buf[pos] == 0 then true
    else if buf[pos] >= JUMP_MARK then
      pos + 1 < |buf| && Target(buf, pos) < start && Backward(buf, Target(buf, pos), Target(buf, pos))
    else Backward(buf, pos + 1, start)
  }

  // ---- where the scan goes ----

  // The scan has met the end of a name, or would read outside the message.
  predicate Halted(buf: seq<octet>, pos: int) {
    !(0 <= pos < |buf|) || buf[pos] == 0 || (buf[pos] >= JUMP_MARK && pos + 1 >= |buf|)
  }

  function Ahead(buf: seq<octet>, pos: int): int {
    if Halted(buf, pos) then pos else if buf[pos] >= JUMP_MARK then Target(buf, pos) else pos + 1
  }

  // Where the scan is after n rounds of its loop, whatever pointers it meets.
  ghost function Walk(buf: seq<octet>, pos: int, n: nat): int {
    if n == 0 then pos else Ahead(buf, Walk(buf, pos, n - 1))
  }

  lemma {:induction false} WalkFurther(buf: seq<octet>, pos: int, m: nat, n: nat)
    ensures Walk(buf, pos, m + n) == Walk(buf, Walk(buf, pos, m), n)
  {
    if n > 0 { WalkFurther(buf, pos, m, n - 1); }
  }

  lemma {:induction false} WalkHalted(buf: seq<octet>, pos: int, n: nat)
    requires Halted(buf, pos)
    ensures Walk(buf, pos, n) == pos
  {
    if n > 0 { WalkHalted(buf, pos, n - 1); }
  }

  // The scan comes back to a position.
  ghost predicate Returns(buf: seq<octet>, pos: int) {
    exists i: nat, j: nat :: i < j && Walk(buf, pos, i) == Walk(buf, pos, j) && !Halted(buf, Walk(buf, pos, i))
  }

  lemma {:induction false} CircleNeverEnds(buf: seq<octet>, pos: int, k: nat, n: nat)
    requires k > 0 && Walk(buf, pos, k) == pos && !Halted(buf, pos)
    ensures !Halted(buf, Walk(buf, pos, n))
    decreases n
  {
    if n >= k {
      WalkFurther(buf, pos, k, n - k);
      CircleNeverEnds(buf, pos, k, n - k);
    } else if Halted(buf, Walk(buf, pos, n)) {
      WalkFurther(buf, pos, n, k - n);
      WalkHalted(buf, Walk(buf, pos, n), k - n);
    }
  }

  // x is among the first n positions.
  ghost predicate Passed(buf: seq<octet>, pos: int, n: nat, x: int) {
    exists i: nat :: i < n && x == Walk(buf, pos, i)
  }

  lemma {:induction false} DistinctPositions(buf: seq<octet>, pos: int, n: nat) returns (seen: set<int>)
    requires !Returns(buf, pos) && forall i: nat :: i < n ==> !Halted(buf, Walk(buf, pos, i))
    ensures |seen| == n && forall x :: x in seen ==> 0 <= x < |buf| && Passed(buf, pos, n, x)
  {
    seen := {};
    if n > 0 {
      var before := DistinctPositions(buf, pos, n - 1);
      var x := Walk(buf, pos, n - 1);
      assert x !in before;
      seen := before + {x};
      forall y | y in seen ensures Passed(buf, pos, n, y) {
        if y in before { assert Passed(buf, pos, n - 1, y); }
      }
    }
  }

  function Range(n: nat): (s: set<int>)
    ensures |s| == n && forall x :: x in s <==> 0 <= x < n
  {
    if n == 0 then {} else Range(n - 1) + {n - 1}
  }

  lemma SetBelow(s: set<int>, n: nat)
    requires forall x :: x in s ==> 0 <= x < n
    ensures |s| <= n
  {
    assert Range(n) == s + (Range(n) - s);
  }

  // The scan ends, and then within as many rounds as the message has bytes, if and only if it never
  // comes back to a position.
  lemma ScanEndsIff(buf: seq<octet>, pos: int)
    ensures !Returns(buf, pos) ==> exists n: nat :: n <= |buf| && Halted(buf, Walk(buf, pos, n))
    ensures Returns(buf, pos) ==> forall n: nat :: !Halted(buf, Walk(buf, pos, n))
  {
    if Returns(buf, pos) {
      var i: nat, j: nat :| i < j && Walk(buf, pos, i) == Walk(buf, pos, j) && !Halted(buf, Walk(buf, pos, i));
      var p := Walk(buf, pos, i);
      WalkFurther(buf, pos, i, j - i);
      forall n: nat ensures !Halted(buf, Walk(buf, pos, n)) {
        if n >= i {
          WalkFurther(buf, pos, i, n - i);
          CircleNeverEnds(buf, p, j - i, n - i);
        } else if Halted(buf, Walk(buf, pos, n)) {
          WalkFurther(buf, pos, n, i - n);
          WalkHalted(buf, Walk(buf, pos, n), i - n);
        }
      }
    } else if forall n: nat :: n <= |buf| ==> !Halted(buf, Walk(buf, pos, n)) {
      var seen := DistinctPositions(buf, pos, |buf| + 1);
      SetBelow(seen, |buf|);
    }
  }

  // Strictly backward pointers bring it to the zero byte of a name.
  lemma {:induction false} BackwardEnds(buf: seq<octet>, pos: nat, start: nat) returns (n: nat)
    requires Backward(buf, pos, start)
    ensures var p := Walk(buf, pos, n); 0 <= p < |buf| && buf[p] == 0
    decreases start, |buf| - pos
  {
    if buf[pos] == 0 {
      n := 0;
    } else {
      var next := Ahead(buf, pos);
      n := BackwardEnds(buf, next, if buf[pos] >= JUMP_MARK then next else start);
      WalkFurther(buf, pos, 1, n);
      assert Walk(buf, pos, 1) == Ahead(buf, Walk(buf, pos, 0));
      n := n + 1;
    }
  }

  // A pointer to itself is followed for ever.
  lemma SelfPointerLoops(n: nat)
    ensures var buf := seq(12, _ => 0) + [192, 12]; !Halted(buf, Walk(buf, 12, n))
  {
    var buf: seq<octet> := seq(12, _ => 0) + [192, 12];
    assert buf[12] == 192 && buf[13] == 12;
    assert Walk(buf, 12, 1) == Ahead(buf, Walk(buf, 12, 0)) == 12;
    CircleNeverEnds(buf, 12, 1, n);
  }

  // ---- what it collects ----

  // The name bytes the scan collects, with all pointers followed.
  ghost function Expand(buf: seq<octet>, pos: nat, start: nat): (name: seq<octet>)
    requires Backward(buf, pos, start)
    ensures forall x :: x in name ==> 0 < x < JUMP_MARK
    decreases start, |buf| - pos
  {
    if buf[pos] == 0 then []
    else if buf[pos] >= JUMP_MARK then Expand(buf, Target(buf, pos), Target(buf, pos))
    else [buf[pos]] + Expand(buf, pos + 1, start)
  }

  // The bytes a name takes up where it stands: up to and including its zero byte or first pointer.
  ghost function Occupies(buf: seq<octet>, pos: nat, start: nat): nat
    requires Backward(buf, pos, start)
    decreases start, |buf| - pos
  {
    if buf[pos] == 0 then 1 else if buf[pos] >= JUMP_MARK then 2 else 1 + Occupies(buf, pos + 1, start)
  }

  // The first loop of ReadName: collect the name bytes and count those at the original position. The
  // code has no test for the end of its buffer; ok is false where it would store past it.
  method Collect(buf: seq<octet>, pos: nat, name: array<octet>) returns (ok: bool, p: nat, count: nat)
    requires Backward(buf, pos, pos)
    modifies name
    ensures ok <==> |Expand(buf, pos, pos)| < name.Length
    ensures ok ==> p == |Expand(buf, pos, pos)| && name[..p] == Expand(buf, pos, pos) && name[p] == 0
    ensures ok ==> count == Occupies(buf, pos, pos)
  {
    count := 1;
    p := 0;
    var jumped := false;
    var reader: nat := pos;
    ghost var start: nat, whole := pos, Expand(buf, pos, pos);
    while buf[reader] != 0
      invariant Backward(buf, reader, start)
      invariant p <= |whole| && p <= name.Length && whole == name[..p] + Expand(buf, reader, start)
      invariant if jumped then count + 1 == Occupies(buf, pos, pos)
                else start == pos && count - 1 + Occupies(buf, reader, pos) == Occupies(buf, pos, pos)
      decreases start, |buf| - reader
    {
      if buf[reader] >= JUMP_MARK {
        var offset := (buf[reader] as int) * 256 + buf[reader + 1] as int - 49152;
        reader := offset;
        start := offset;
        jumped := true;
      } else {
        if p == name.Length {
          return false, p, count;
        }
        name[p] := buf[reader];
        p := p + 1;
        reader := reader + 1;
      }
      if !jumped {
        count := count + 1;
      }
    }
    if p == name.Length {
      return false, p, count;
    }
    name[p] := 0;
    if jumped {
      count := count + 1;
    }
    ok := true;
  }

  // The in-place conversion at the end of ReadName: every length byte moves behind its label and
  // turns into a dot; the last dot then becomes the terminator.
  method Convert(name: array<octet>, ghost ls: seq<Label>)
    requires ls != [] && |Flat(ls)| < name.Length && name[..|Flat(ls)|] == Flat(ls) && name[|Flat(ls)|] == 0
    requires 0 !in Flat(ls) && forall i :: 0 <= i < |ls| ==> |ls[i]| < 256
    modifies name
    ensures |Join(ls)| < name.Length && name[..|Join(ls)|] == Join(ls) && name[|Join(ls)|] == 0
  {
    hide Flat, Dotted;
    ghost var n, t := |Flat(ls)|, 0;
    var i: nat := 0;
    FlatDottedStart(ls);
    var len := StrLen(name, n);
    while i < len
      invariant t <= |ls| && i <= n && len == n && name[n] == 0
      invariant i == |Dotted(ls[..t])| && name[..i] == Dotted(ls[..t]) && name[i..n] == Flat(ls[t..])
      invariant 0 !in name[..n]
      decreases n - i
    {
      FlatHead(ls, t);
      i := ConvertLabel(name, i, n, ls[t], Flat(ls[t + 1..]));
      DottedNext(ls, t);
      t := t + 1;
      len := StrLen(name, n);
    }
    FlatEnd(ls, t);
    DottedIsJoin(ls);
    name[i - 1] := 0;
  }

  lemma FlatDottedStart(ls: seq<Label>)
    ensures Dotted(ls[..0]) == [] && ls[0..] == ls
  {
  }

  lemma FlatHead(ls: seq<Label>, t: nat)
    requires t <= |ls| && Flat(ls[t..]) != []
    requires forall i :: 0 <= i < |ls| ==> |ls[i]| < 256
    ensures t < |ls| && Flat(ls[t..]) == [|ls[t]| as octet] + ls[t] + Flat(ls[t + 1..])
  {
    assert ls[t..] != [];
    assert ls[t..][1..] == ls[t + 1..] && ls[t..][0] == ls[t];
  }

  lemma DottedNext(ls: seq<Label>, t: nat)
    requires t < |ls|
    ensures Dotted(ls[..t + 1]) == Dotted(ls[..t]) + ls[t] + [DOT]
  {
    assert ls[..t + 1] == ls[..t] + [ls[t]];
    DottedAppend(ls[..t], [ls[t]]);
    var one: seq<Label> := [ls[t]];
    assert one[1..] == [];
    assert Dotted(one) == ls[t] + [DOT] + Dotted(one[1..]) == ls[t] + [DOT];
    assert Dotted(ls[..t]) + (ls[t] + [DOT]) == Dotted(ls[..t]) + ls[t] + [DOT];
  }

  lemma FlatEnd(ls: seq<Label>, t: nat)
    requires t <= |ls| && Flat(ls[t..]) == []
    ensures ls[..t] == ls
  {
  }

  // One round of the outer loop: the inner loop moves the label one place down over its length
  // byte, and a dot goes behind it.
  method ConvertLabel(name: array<octet>, i: nat, ghost n: nat, ghost l: Label, ghost rest: seq<octet>)
    returns (next: nat)
    requires i < n < name.Length && name[i..n] == [|l| % 256] + l + rest && |l| < 256
    requires 0 !in name[..n]
    modifies name
    ensures next == i + |l| + 1 <= n
    ensures name[..next] == old(name[..i]) + l + [DOT] && name[next..n] == rest
    ensures name[n] == old(name[n]) && 0 !in name[..n]
  {
    ghost var before := name[..];
    SpreadLabel(before, i, n, l, rest);
    var p, j := name[i], 0;
    next := i;
    while j < p
      invariant j <= p == |l| && next == i + j
      invariant forall k :: 0 <= k < i ==> name[k] == before[k]
      invariant forall k :: 0 <= k < j ==> name[i + k] == l[k]
      invariant forall k :: i + j < k < name.Length ==> name[k] == before[k]
    {
      name[next] := name[next + 1];
      next := next + 1;
      j := j + 1;
    }
    name[next] := DOT;
    next := next + 1;
    assert name[..next] == before[..i] + l + [DOT];
    assert name[next..n] == rest;
    assert forall k :: 0 <= k < i ==> name[k] == before[..n][k];
  }

  lemma SpreadLabel(name: seq<octet>, i: nat, n: nat, l: Label, rest: seq<octet>)
    requires i < n <= |name| && name[i..n] == [|l| % 256] + l + rest && |l| < 256 && 0 !in name[..n]
    ensures i + |l| + 1 <= n && name[i] == |l|
    ensures forall k :: 0 <= k < |l| ==> name[i + 1 + k] == l[k] != 0
    ensures forall k :: i + |l| < k < n ==> name[k] == rest[k - (i + |l| + 1)] != 0
    ensures |rest| == n - (i + |l| + 1)
  {
    var s := name[i..n];
    forall k | i <= k < n ensures name[k] == s[k - i] != 0 {
      assert name[k] == name[..n][k];
    }
    forall k | 0 <= k < |l| ensures name[i + 1 + k] == l[k] != 0 {
      assert name[i + 1 + k] == s[1 + k];
    }
    forall k | i + |l| < k < n ensures name[k] == rest[k - (i + |l| + 1)] != 0 {
      assert name[k] == s[k - i];
    }
  }

  // What ReadName allocates for a name and its terminator.
  const NAME_BUFFER: nat := 256

  // ReadName on a name whose bytes, pointers followed, are the labels ls: the result is the dotted
  // name, and count says how many bytes the name occupies where it was read. The labels' bytes fit
  // the buffer, or the code stores past it.
  method ReadName(buf: seq<octet>, reader: nat, ghost ls: seq<Label>)
    returns (ok: bool, name: array<octet>, count: nat)
    requires Backward(buf, reader, reader) && Expand(buf, reader, reader) == Flat(ls)
    requires ls != [] && forall i :: 0 <= i < |ls| ==> |ls[i]| < 256
    ensures fresh(name) && (ok <==> |Flat(ls)| < NAME_BUFFER)
    ensures ok ==> |Join(ls)| < name.Length && name[..|Join(ls)|] == Join(ls) && name[|Join(ls)|] == 0
    ensures ok ==> count == Occupies(buf, reader, reader)
  {
    name := new octet[NAME_BUFFER];
    var p;
    ok, p, count := Collect(buf, reader, name);
    if ok {
      Convert(name, ls);
    }
  }

  // ---- decoding what was encoded ----

  // The wire form of ls stands in the message at pos.
  ghost predicate StandsAt(buf: seq<octet>, pos: nat, bytes: seq<octet>) {
    pos + |bytes| <= |buf| && buf[pos..pos + |bytes|] == bytes
  }

  // A run of plain bytes is collected as it is, up to wherever the scan ends.
  lemma {:induction false} PlainRun(buf: seq<octet>, pos: nat, start: nat, run: seq<octet>)
    requires StandsAt(buf, pos, run) && forall x :: x in run ==> 0 < x < JUMP_MARK
    requires Backward(buf, pos + |run|, start)
    ensures Backward(buf, pos, start)
    ensures Expand(buf, pos, start) == run + Expand(buf, pos + |run|, start)
    ensures Occupies(buf, pos, start) == |run| + Occupies(buf, pos + |run|, start)
    decreases |run|
  {
    if run != [] {
      assert buf[pos] == buf[pos..pos + |run|][0] == run[0] && run[0] in run;
      assert buf[pos + 1..pos + 1 + |run[1..]|] == run[1..] by {
        assert buf[pos..pos + |run|][1..] == run[1..];
      }
      assert forall x :: x in run[1..] ==> x in run;
      PlainRun(buf, pos + 1, start, run[1..]);
    }
  }

  // Names within the limits of section 3.1 of RFC 1035, made of bytes the decoder can tell
  // from a pointer.
  ghost predicate Decodable(ls: seq<Label>) {
    && ls != [] && |Flat(ls)| <= 255
    && (forall i :: 0 <= i < |ls| ==> 1 <= |ls[i]| <= 63)
    && (forall i, x :: 0 <= i < |ls| && x in ls[i] ==> 0 < x < JUMP_MARK)
  }

  lemma {:induction false} FlatBytes(ls: seq<Label>)
    requires forall i :: 0 <= i < |ls| ==> 1 <= |ls[i]| <= 63
    requires forall i, x :: 0 <= i < |ls| && x in ls[i] ==> 0 < x < JUMP_MARK
    ensures forall x :: x in Flat(ls) ==> 0 < x < JUMP_MARK
  {
    if ls != [] {
      assert forall x :: x in ls[0] ==> 0 < x < JUMP_MARK;
      FlatBytes(ls[1..]);
    }
  }

  // The labels of an encoded name without high bytes are collected as they stand.
  lemma PlainName(buf: seq<octet>, pos: nat, ls: seq<Label>)
    requires forall i :: 0 <= i < |ls| ==> 1 <= |ls[i]| <= 63
    requires forall i, x :: 0 <= i < |ls| && x in ls[i] ==> 0 < x < JUMP_MARK
    requires StandsAt(buf, pos, Wire(ls))
    ensures Backward(buf, pos, pos) && Expand(buf, pos, pos) == Flat(ls) && Occupies(buf, pos, pos) == |Wire(ls)|
  {
    hide Flat;
    FlatBytes(ls);
    var n := |Flat(ls)|;
    assert |Wire(ls)| == n + 1 && Wire(ls)[n] == 0;
    assert buf[pos + n] == buf[pos..pos + n + 1][n] == 0;
    assert buf[pos..pos + n] == buf[pos..pos + n + 1][..n] == Flat(ls);
    PlainRun(buf, pos, pos, Flat(ls));
  }

  // An encoded name reads back as its labels, wherever it stands, and occupies its whole length.
  lemma WireReadsBack(buf: seq<octet>, pos: nat, ls: seq<Label>)
    requires Decodable(ls) && StandsAt(buf, pos, Wire(ls))
    ensures Backward(buf, pos, pos) && Expand(buf, pos, pos) == Flat(ls) && Occupies(buf, pos, pos) == |Wire(ls)|
  {
    PlainName(buf, pos, ls);
  }

  // Labels followed by a pointer to an earlier name expand to those labels and that name, and
  // occupy only themselves and the two pointer bytes.
  lemma PointerExpands(buf: seq<octet>, pos: nat, ls: seq<Label>, to: nat)
    requires (forall i :: 0 <= i < |ls| ==> 1 <= |ls[i]| <= 63)
    requires (forall i, x :: 0 <= i < |ls| && x in ls[i] ==> 0 < x < JUMP_MARK)
    requires to < pos && to < 16384 && Backward(buf, to, to)
    requires StandsAt(buf, pos, Flat(ls) + [192 + to / 256, to % 256])
    ensures Backward(buf, pos, pos)
    ensures Expand(buf, pos, pos) == Flat(ls) + Expand(buf, to, to)
    ensures Occupies(buf, pos, pos) == |Flat(ls)| + 2
  {
    hide Flat;
    FlatBytes(ls);
    var n := |Flat(ls)|;
    PointerBytes(buf, pos, Flat(ls), to);
    assert Target(buf, pos + n) == to;
    assert Backward(buf, pos + n, pos);
    assert Expand(buf, pos + n, pos) == Expand(buf, to, to);
    PlainRun(buf, pos, pos, Flat(ls));
  }

  lemma PointerBytes(buf: seq<octet>, pos: nat, run: seq<octet>, to: nat)
    requires to < 16384 && StandsAt(buf, pos, run + [192 + to / 256, to % 256])
    ensures StandsAt(buf, pos, run) && pos + |run| + 1 < |buf|
    ensures buf[pos + |run|] == 192 + to / 256 && buf[pos + |run| + 1] == to % 256
  {
    var n, bytes := |run|, run + [192 + to / 256, to % 256];
    assert buf[pos..pos + n] == buf[pos..pos + |bytes|][..n] == run;
    assert buf[pos + n] == buf[pos..pos + |bytes|][n] && buf[pos + n + 1] == buf[pos..pos + |bytes|][n + 1];
  }

  // Encoding a host name and decoding the result gives the host name back.
  method RoundTrip(dns: array<octet>, host: array<octet>, ghost n: nat) returns (name: array<octet>, count: nat)
    requires dns != host && CString(host[..], n) && n + 1 < host.Length && n + 2 <= dns.Length
    requires Decodable(Split(host[..n]))
    modifies dns, host
    ensures fresh(name) && n < name.Length && name[..n] == old(host[..n]) && name[n] == 0
    ensures count == n + 2
  {
    ghost var h := host[..n];
    ghost var ls := Split(h);
    var written := ChangetoDnsNameFormat(dns, host, n);
    JoinSplit(h);
    WireReadsBack(dns[..written], 0, ls);
    var ok;
    ok, name, count := ReadName(dns[..written], 0, ls);
  }

  // A byte of 192 or more inside a label is taken for a pointer, and more than 255 bytes do not fit the
  // name buffer. For labels of legal length an encoded name reads back as itself, wherever it
  // stands and whatever surrounds it, exactly when it has neither.
  lemma ReadsBackIff(buf: seq<octet>, pos: nat, ls: seq<Label>)
    requires ls != [] && forall i :: 0 <= i < |ls| ==> 1 <= |ls[i]| <= 63
    requires forall i :: 0 <= i < |ls| ==> 0 !in ls[i]
    requires StandsAt(buf, pos, Wire(ls))
    ensures (Backward(buf, pos, pos) && Expand(buf, pos, pos) == Flat(ls) && |Expand(buf, pos, pos)| < NAME_BUFFER)
       <==> (forall i, x :: 0 <= i < |ls| && x in ls[i] ==> x < JUMP_MARK) && |Wire(ls)| <= NAME_BUFFER
  {
    hide Flat, StandsAt;
    if forall i, x :: 0 <= i < |ls| && x in ls[i] ==> x < JUMP_MARK {
      PlainName(buf, pos, ls);
    } else {
      var i, x :| 0 <= i < |ls| && x in ls[i] && x >= JUMP_MARK;
      InFlat(ls, i, x);
    }
  }

  lemma {:induction false} FlatLength(ls: seq<Label>, n: nat)
    requires forall i :: 0 <= i < |ls| ==> |ls[i]| == n
    ensures |Flat(ls)| == |ls| * (n + 1)
  {
    if ls != [] { FlatLength(ls[1..], n); }
  }

  // Five labels of 63 bytes each: the scan goes through, collecting 320 bytes for a buffer of 256.
  lemma LongNameOverflows()
    ensures var ls := seq(5, _ => seq(63, _ => 97));
            var buf := seq(12, _ => 0) + Wire(ls);
            && Backward(buf, 12, 12) && Expand(buf, 12, 12) == Flat(ls)
            && |Expand(buf, 12, 12)| == 320 > NAME_BUFFER
  {
    hide Flat, Wire;
    var ls: seq<Label> := seq(5, _ => seq(63, _ => 97));
    var buf := seq(12, _ => 0) + Wire(ls);
    assert buf[12..12 + |Wire(ls)|] == Wire(ls);
    PlainName(buf, 12, ls);
    FlatLength(ls, 63);
  }

  // Behind a 12-byte header the label 192, 5 is decoded as the length byte 2 and a pointer into the
  // header: the name read is that length byte alone.
  lemma HighByteMisread()
    ensures var ls := [[192, 5]];
            var buf := seq(12, _ => 0) + Wire(ls);
            && StandsAt(buf, 12, Wire(ls)) && Backward(buf, 12, 12)
            && Expand(buf, 12, 12) == [2] && Occupies(buf, 12, 12) == 3
  {
    var l: Label := [192, 5];
    FlatOne(l);
    var buf := seq(12, _ => 0) + Wire([l]);
    assert Wire([l]) == [2, 192, 5, 0];
    assert Target(buf, 13) == 5 && Expand(buf, 5, 5) == [];
    assert Expand(buf, 12, 12) == [2] + Expand(buf, 13, 12);
  }

  lemma {:induction false} InFlat(ls: seq<Label>, i: nat, x: octet)
    requires i < |ls| && x in ls[i]
    ensures x in Flat(ls)
  {
    if i > 0 { InFlat(ls[1..], i - 1, x); }
  }
}
