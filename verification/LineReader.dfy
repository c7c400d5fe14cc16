// Reassembly of lines from a byte stream read in chunks (process_content in ConfCli.c): bytes
// gather in a fixed buffer, and each newline hands the buffer to the line parser.
module LineReader {
  import opened Octets

  const NEWLINE: octet := 10
  const LIMIT: nat := 1023
  const SIZE: nat := 1024

  // What the parser reads from a buffer: the bytes before the first zero.
  function CString(a: seq<octet>): seq<octet> {
    if a == [] || a[0] == 0 then [] else [a[0]] + CString(a[1..])
  }

  lemma {:induction false} CStringIsPrefix(a: seq<octet>, n: nat)
    requires n <= |a| && 0 !in a[..n] && (n < |a| ==> a[n] == 0)
    ensures CString(a) == a[..n]
  {
    if n > 0 {
      assert a[..n][0] == a[0] && a[1..][..n - 1] == a[..n][1..];
      CStringIsPrefix(a[1..], n - 1);
    }
  }

  // ---- the meaning of a stream ----

  // Lines complete so far, and the bytes of the unfinished one.
  datatype Parse = Parse(lines: seq<seq<octet>>, rest: seq<octet>)

  const START: Parse := Parse([], [])

  function Feed(p: Parse, b: octet): Parse {
    if b == NEWLINE then Parse(p.lines + [CString(p.rest + [b])], []) else p.(rest := p.rest + [b])
  }

  function FeedAll(p: Parse, s: seq<octet>): Parse {
    if s == [] then p else Feed(FeedAll(p, s[..|s| - 1]), s[|s| - 1])
  }

  lemma {:induction false} FeedConcat(p: Parse, s: seq<octet>, t: seq<octet>)
    ensures FeedAll(p, s + t) == FeedAll(FeedAll(p, s), t)
  {
    if t == [] {
      assert s + t == s;
    } else {
      var n := |t| - 1;
      FeedConcat(p, s, t[..n]);
      assert (s + t)[..|s + t| - 1] == s + t[..n];
    }
  }

  // The unfinished line never reaches the limit while s is fed, up to the byte after it.
  ghost predicate Fits(p: Parse, s: seq<octet>) {
    forall n :: 0 <= n < |s| ==> |FeedAll(p, s[..n]).rest| < LIMIT
  }

  lemma {:induction false} RestIsSuffix(t: seq<octet>)
    ensures var r := FeedAll(START, t).rest;
            && |r| <= |t| && r == t[|t| - |r|..] && NEWLINE !in r
            && (|r| < |t| ==> t[|t| - |r| - 1] == NEWLINE)
  {
    if t != [] { RestIsSuffix(t[..|t| - 1]); }
  }

  lemma NewlineInside(s: seq<octet>, i: nat, n: nat, k: nat)
    requires i <= n < |s| && k <= n && (k > 0 ==> s[k - 1] == NEWLINE)
    ensures i < k ==> NEWLINE in s[i..n]
  {
    if i < k { assert s[i..n][k - 1 - i] == s[k - 1]; }
  }

  // A stream fits exactly when no stretch of 1023 bytes without a newline has a byte after it.
  lemma FitsMeansShortLines(s: seq<octet>)
    ensures Fits(START, s) <==>
            forall i, n :: 0 <= i <= n < |s| && NEWLINE !in s[i..n] ==> n - i < LIMIT
  {
    if Fits(START, s) {
      forall i, n | 0 <= i <= n < |s| && NEWLINE !in s[i..n] ensures n - i < LIMIT {
        var t := s[..n];
        RestIsSuffix(t);
        var k := n - |FeedAll(START, t).rest|;
        NewlineInside(s, i, n, k);
      }
    }
    if forall i, n :: 0 <= i <= n < |s| && NEWLINE !in s[i..n] ==> n - i < LIMIT {
      forall n | 0 <= n < |s| ensures |FeedAll(START, s[..n]).rest| < LIMIT {
        RestIsSuffix(s[..n]);
        var k := n - |FeedAll(START, s[..n]).rest|;
        assert s[k..n] == s[..n][k..];
      }
    }
  }

  // ---- the code's state, and what one call makes of it ----

  function Blank(): seq<octet> { seq(SIZE, _ => 0) }

  datatype Raw = Raw(buf: seq<octet>, offset: nat, handed: seq<seq<octet>>)

  // The loop of process_content from byte i of the chunk on; the flag says the chunk was used up.
  function Process(r: Raw, chunk: seq<octet>): (res: (Raw, bool))
    requires |r.buf| == SIZE && r.offset <= LIMIT
    ensures |res.0.buf| == SIZE && res.0.offset <= LIMIT
    decreases |chunk|
  {
    if chunk == [] then (r, true)
    else if r.offset >= LIMIT then (r.(offset := 0), false)
    else
      var buf := r.buf[r.offset := chunk[0]];
      if chunk[0] == NEWLINE then
        Process(Raw(Blank(), 0, r.handed + [CString(buf)]), chunk[1..])
      else
        Process(Raw(buf, r.offset + 1, r.handed), chunk[1..])
  }

  // The calls worker_thread makes, one a read. It ignores what process_content returns, so that after
  // an error the next chunk meets an uncleared buffer.
  function ProcessAll(r: Raw, chunks: seq<seq<octet>>): (r': Raw)
    requires |r.buf| == SIZE && r.offset <= LIMIT
    ensures |r'.buf| == SIZE && r'.offset <= LIMIT
    decreases |chunks|
  {
    if chunks == [] then r else ProcessAll(Process(r, chunks[0]).0, chunks[1..])
  }

  class Reader {
    var buf: array<octet>
    var offset: nat
    var handed: seq<seq<octet>>      // the strings passed to parse_single_line

    ghost predicate Valid()
      reads this
    {
      buf.Length == SIZE && offset <= LIMIT
    }

    ghost function View(): (r: Raw)
      requires Valid()
      reads this, buf
    {
      Raw(buf[..], offset, handed)
    }

    constructor ()
      ensures Valid() && fresh(buf) && View() == Fresh()
    {
      buf := new octet[SIZE](_ => 0);
      offset := 0;
      handed := [];
    }

    // process_content: 0 if the whole chunk was taken; 1 if a line was too long, in which case the
    // rest of the chunk is dropped and the buffer is reused without being cleared.
    method ProcessContent(chunk: seq<octet>) returns (rc: int)
      requires Valid()
      modifies this, buf
      ensures Valid() && buf == old(buf)
      ensures rc == if Process(old(View()), chunk).1 then 0 else 1
      ensures View() == Process(old(View()), chunk).0
    {
      var i := 0;
      ghost var result := Process(View(), chunk);
      assert chunk[0..] == chunk;
      while i < |chunk| && offset < LIMIT
        invariant 0 <= i <= |chunk| && Valid() && buf == old(buf)
        invariant Process(View(), chunk[i..]) == result
      {
        assert chunk[i..][0] == chunk[i] && chunk[i..][1..] == chunk[i + 1..];
        ghost var before := buf[..];
        buf[offset] := chunk[i];
        assert buf[..] == before[offset := chunk[i]];
        if chunk[i] == NEWLINE {
          handed := handed + [CString(buf[..])];
          Zero(buf);
          offset := 0;
          assert buf[..] == Blank();
        } else {
          offset := offset + 1;
        }
        i := i + 1;
      }
      if i == |chunk| {
        rc := 0;
      } else {
        offset := 0;
        rc := 1;
      }
    }

    // A stream that arrives in chunks. Whether some call reports an error, and if none does the lines
    // handed over, depends on the stream alone and not on how it was cut.
    method ProcessChunks(chunks: seq<seq<octet>>) returns (ok: bool)
      requires Valid() && View() == Fresh()
      modifies this, buf
      ensures Valid() && View() == ProcessAll(Fresh(), chunks)
      ensures ok <==> Fits(START, Concat(chunks))
      ensures ok ==> handed == FeedAll(START, Concat(chunks)).lines
    {
      hide Process;
      ok := true;
      ghost var s, p := Concat(chunks), START;
      var n := 0;
      FreshMeans();
      assert chunks[0..] == chunks;
      while n < |chunks|
        invariant 0 <= n <= |chunks| && Valid() && buf == old(buf)
        invariant ProcessAll(View(), chunks[n..]) == ProcessAll(Fresh(), chunks)
        invariant if ok then Means(View(), p) && FeedAll(p, Concat(chunks[n..])) == FeedAll(START, s)
                             && (Fits(p, Concat(chunks[n..])) <==> Fits(START, s))
                  else !Fits(START, s)
      {
        var c := chunks[n];
        ghost var rest := Concat(chunks[n + 1..]);
        assert chunks[n..][0] == c && chunks[n..][1..] == chunks[n + 1..];
        if ok {
          ProcessMeans(View(), p, c);
          FitsConcat(p, c, rest);
          FeedConcat(p, c, rest);
        }
        var rc := ProcessContent(c);
        if rc != 0 {
          ok := false;
        }
        p := FeedAll(p, c);
        n := n + 1;
      }
    }
  }

  function Fresh(): Raw { Raw(Blank(), 0, []) }

  function Concat(chunks: seq<seq<octet>>): seq<octet> {
    if chunks == [] then [] else chunks[0] + Concat(chunks[1..])
  }

  // The state r holds the parse p: its lines handed over, its rest at the front of a buffer that
  // is zero behind it.
  ghost predicate Means(r: Raw, p: Parse) {
    && |r.buf| == SIZE && r.offset == |p.rest| <= LIMIT && r.handed == p.lines
    && r.buf[..r.offset] == p.rest
    && forall i :: r.offset <= i < SIZE ==> r.buf[i] == 0
  }

  lemma FreshMeans()
    ensures Means(Fresh(), START)
  {
  }

  // One byte at the front of the rest of a stream.
  lemma FeedFront(p: Parse, s: seq<octet>)
    requires s != []
    ensures FeedAll(p, s) == FeedAll(Feed(p, s[0]), s[1..])
    ensures Fits(p, s) <==> |p.rest| < LIMIT && Fits(Feed(p, s[0]), s[1..])
  {
    var one := [s[0]];
    assert one[..0] == [];
    assert FeedAll(p, one) == Feed(FeedAll(p, one[..0]), s[0]) == Feed(p, s[0]);
    assert s == one + s[1..];
    FeedConcat(p, one, s[1..]);
    FitsConcat(p, one, s[1..]);
    assert Fits(p, one) <==> |p.rest| < LIMIT by {
      assert FeedAll(p, one[..0]) == p;
    }
  }

  lemma FitsConcat(p: Parse, s: seq<octet>, t: seq<octet>)
    ensures Fits(p, s + t) <==> Fits(p, s) && Fits(FeedAll(p, s), t)
  {
    var u := s + t;
    forall n | 0 <= n < |s| ensures FeedAll(p, u[..n]) == FeedAll(p, s[..n]) {
      assert u[..n] == s[..n];
    }
    forall n | 0 <= n < |t| ensures FeedAll(p, u[..|s| + n]) == FeedAll(FeedAll(p, s), t[..n]) {
      assert u[..|s| + n] == s + t[..n];
      FeedConcat(p, s, t[..n]);
    }
    if Fits(p, s) && Fits(FeedAll(p, s), t) {
      forall n | 0 <= n < |u| ensures |FeedAll(p, u[..n]).rest| < LIMIT {
        if n >= |s| { assert FeedAll(p, u[..|s| + (n - |s|)]) == FeedAll(FeedAll(p, s), t[..n - |s|]); }
      }
    }
    if Fits(p, u) {
      forall n | 0 <= n < |s| ensures |FeedAll(p, s[..n]).rest| < LIMIT {
        assert FeedAll(p, u[..n]) == FeedAll(p, s[..n]);
      }
      forall n | 0 <= n < |t| ensures |FeedAll(FeedAll(p, s), t[..n]).rest| < LIMIT {
        assert FeedAll(p, u[..|s| + n]) == FeedAll(FeedAll(p, s), t[..n]);
      }
    }
  }

  // A call takes the whole chunk exactly when no line in it reaches the limit, and then its
  // state holds the parse of the longer stream.
  lemma {:induction false} ProcessMeans(r: Raw, p: Parse, chunk: seq<octet>)
    requires Means(r, p)
    ensures Process(r, chunk).1 <==> Fits(p, chunk)
    ensures Fits(p, chunk) ==> Means(Process(r, chunk).0, FeedAll(p, chunk))
    decreases |chunk|
  {
    if chunk != [] {
      FeedFront(p, chunk);
      if r.offset < LIMIT {
        StepMeans(r, p, chunk[0]);
        var buf := r.buf[r.offset := chunk[0]];
        var r' := if chunk[0] == NEWLINE then Raw(Blank(), 0, r.handed + [CString(buf)])
                  else Raw(buf, r.offset + 1, r.handed);
        ProcessMeans(r', Feed(p, chunk[0]), chunk[1..]);
      }
    }
  }

  lemma StepMeans(r: Raw, p: Parse, b: octet)
    requires Means(r, p) && r.offset < LIMIT
    ensures var buf := r.buf[r.offset := b];
            Means(if b == NEWLINE then Raw(Blank(), 0, r.handed + [CString(buf)])
                  else Raw(buf, r.offset + 1, r.handed), Feed(p, b))
  {
    var buf := r.buf[r.offset := b];
    assert buf[..r.offset] == p.rest;
    if b == NEWLINE {
      LineHanded(buf, p.rest, b);
    } else {
      assert buf[..r.offset + 1] == p.rest + [b];
    }
  }

  // memset of the whole buffer
  method Zero(a: array<octet>)
    modifies a
    ensures forall i :: 0 <= i < a.Length ==> a[i] == 0
  {
    for i := 0 to a.Length
      invariant forall j :: 0 <= j < i ==> a[j] == 0
    {
      a[i] := 0;
    }
  }

  // Behind the line the buffer is all zero, so the parser sees just the line.
  lemma {:induction false} LineHanded(a: seq<octet>, rest: seq<octet>, b: octet)
    requires |rest| < |a| && a[..|rest|] == rest && a[|rest|] == b
    requires forall i :: |rest| < i < |a| ==> a[i] == 0
    ensures CString(a) == CString(rest + [b])
  {
    if rest == [] {
      var t := a[1..];
      assert t == [] || t[0] == 0;
      assert ([] + [b])[1..] == [];
    } else {
      assert a[1..][..|rest| - 1] == rest[1..];
      LineHanded(a[1..], rest[1..], b);
      assert (rest + [b])[1..] == rest[1..] + [b];
    }
  }

  // ---- beyond the limit ----

  // Where the first line too long stops the parser: the first place at which the unfinished line
  // has reached the limit, the end of the stream if it never does.
  function Cut(p: Parse, s: seq<octet>): (n: nat)
    ensures n <= |s|
    decreases |s|
  {
    if s == [] || |p.rest| >= LIMIT then 0 else 1 + Cut(Feed(p, s[0]), s[1..])
  }

  lemma {:induction false} CutMeans(p: Parse, s: seq<octet>)
    requires |p.rest| <= LIMIT
    ensures var n := Cut(p, s);
            && Fits(p, s[..n]) && (Fits(p, s) <==> n == |s|)
            && (n < |s| ==> |FeedAll(p, s[..n]).rest| == LIMIT)
    decreases |s|
  {
    if s != [] && |p.rest| < LIMIT {
      var n := Cut(p, s);
      CutMeans(Feed(p, s[0]), s[1..]);
      FeedFront(p, s);
      FeedFront(p, s[..n]);
      assert s[..n][1..] == s[1..][..n - 1];
    } else if s != [] {
      FeedFront(p, s);
    }
  }

  lemma {:induction false} CutConcat(p: Parse, s: seq<octet>, t: seq<octet>)
    requires |p.rest| <= LIMIT
    ensures Cut(p, s + t) == if Fits(p, s) then |s| + Cut(FeedAll(p, s), t) else Cut(p, s)
    decreases |s|
  {
    if s == [] {
      assert s + t == t;
    } else {
      FeedFront(p, s);
      assert (s + t)[0] == s[0] && (s + t)[1..] == s[1..] + t;
      if |p.rest| < LIMIT { CutConcat(Feed(p, s[0]), s[1..], t); }
    }
  }

  // A call that runs into a line too long hands over the lines before it.
  lemma {:induction false} ProcessCut(r: Raw, p: Parse, chunk: seq<octet>)
    requires Means(r, p)
    ensures Process(r, chunk).0.handed == FeedAll(p, chunk[..Cut(p, chunk)]).lines
    decreases |chunk|
  {
    if chunk != [] && r.offset < LIMIT {
      var n := Cut(p, chunk);
      StepMeans(r, p, chunk[0]);
      var buf := r.buf[r.offset := chunk[0]];
      ProcessCut(if chunk[0] == NEWLINE then Raw(Blank(), 0, r.handed + [CString(buf)])
                 else Raw(buf, r.offset + 1, r.handed), Feed(p, chunk[0]), chunk[1..]);
      FeedFront(p, chunk[..n]);
      assert chunk[..n][1..] == chunk[1..][..n - 1];
    }
  }

  // Without a newline nothing is handed over; and bytes that stay below the limit are just counted.
  lemma {:induction false} PlainChunk(r: Raw, chunk: seq<octet>)
    requires |r.buf| == SIZE && r.offset <= LIMIT && NEWLINE !in chunk
    ensures Process(r, chunk).0.handed == r.handed
    ensures r.offset + |chunk| <= LIMIT ==> Process(r, chunk).0.offset == r.offset + |chunk|
    decreases |chunk|
  {
    if chunk != [] && r.offset < LIMIT {
      PlainChunk(Raw(r.buf[r.offset := chunk[0]], r.offset + 1, r.handed), chunk[1..]);
    }
  }

  lemma {:induction false} PlainChunks(r: Raw, chunks: seq<seq<octet>>)
    requires |r.buf| == SIZE && r.offset <= LIMIT && NEWLINE !in Concat(chunks)
    ensures ProcessAll(r, chunks).handed == r.handed
    decreases |chunks|
  {
    if chunks != [] {
      PlainChunk(r, chunks[0]);
      PlainChunks(Process(r, chunks[0]).0, chunks[1..]);
    }
  }

  // If no newline follows the place where a line gets too long, then however the stream is cut the
  // lines handed over are those before that place.
  lemma {:induction false} HandsOver(r: Raw, p: Parse, chunks: seq<seq<octet>>)
    requires Means(r, p)
    requires var s, o := Concat(chunks), Cut(p, Concat(chunks)); o < |s| ==> NEWLINE !in s[o + 1..]
    ensures ProcessAll(r, chunks).handed == FeedAll(p, Concat(chunks)[..Cut(p, Concat(chunks))]).lines
    decreases |chunks|
  {
    if chunks != [] {
      hide Process, Means;
      var c, rest := chunks[0], Concat(chunks[1..]);
      var o := Cut(p, c + rest);
      MeansLimit(r, p);
      CutConcat(p, c, rest);
      ProcessMeans(r, p, c);
      CutMeans(p, c);
      if Fits(p, c) {
        assert (c + rest)[..o] == c + rest[..o - |c|];
        FeedConcat(p, c, rest[..o - |c|]);
        if o < |c + rest| { assert (c + rest)[o + 1..] == rest[o - |c| + 1..]; }
        HandsOver(Process(r, c).0, FeedAll(p, c), chunks[1..]);
      } else {
        assert (c + rest)[..o] == c[..o] && (c + rest)[o + 1..] == c[o + 1..] + rest;
        ProcessCut(r, p, c);
        PlainChunks(Process(r, c).0, chunks[1..]);
      }
    }
  }

  lemma MeansLimit(r: Raw, p: Parse)
    requires Means(r, p)
    ensures |r.buf| == SIZE && r.offset == |p.rest| <= LIMIT && r.handed == p.lines
  {
  }

  // No newline comes after a newline-free stretch of 1023 bytes and one byte more.
  ghost predicate LongLineIsLast(s: seq<octet>) {
    forall i, n :: 0 <= i && i + LIMIT <= n < |s| && NEWLINE !in s[i..n] ==> NEWLINE !in s[n + 1..]
  }

  lemma LongLineAtCut(s: seq<octet>)
    ensures LongLineIsLast(s) <==> var o := Cut(START, s); o < |s| ==> NEWLINE !in s[o + 1..]
  {
    hide FeedAll, Fits, Cut;
    var o := Cut(START, s);
    CutMeans(START, s);
    if o < |s| {
      RestIsSuffix(s[..o]);
      assert s[o - LIMIT..o] == s[..o][o - LIMIT..];
    }
    if o < |s| ==> NEWLINE !in s[o + 1..] {
      forall i, n | 0 <= i && i + LIMIT <= n < |s| && NEWLINE !in s[i..n] ensures NEWLINE !in s[n + 1..] {
        CutComesFirst(s, i, n);
        assert s[n + 1..] == s[o + 1..][n - o..];
      }
    }
  }

  lemma FitsBefore(s: seq<octet>, o: nat, n: nat)
    requires o <= |s| && Fits(START, s[..o])
    ensures n < o ==> |FeedAll(START, s[..n]).rest| < LIMIT
  {
    if n < o { assert s[..o][..n] == s[..n]; }
  }

  lemma CutComesFirst(s: seq<octet>, i: nat, n: nat)
    requires i + LIMIT <= n < |s| && NEWLINE !in s[i..n]
    ensures Cut(START, s) <= n
  {
    hide FeedAll, Cut;
    var o := Cut(START, s);
    CutMeans(START, s);
    RestIsSuffix(s[..n]);
    NewlineInside(s, i, n, n - |FeedAll(START, s[..n]).rest|);
    FitsBefore(s, o, n);
  }

  // ---- well-formed text ----

  // Lines of fewer than 1023 bytes, none of them zero or a newline.
  ghost predicate TextLine(l: seq<octet>) { |l| < 1023 && 0 !in l && 10 !in l }

  function Text(ls: seq<seq<octet>>): seq<octet> {
    if ls == [] then [] else Text(ls[..|ls| - 1]) + (ls[|ls| - 1] + [10])
  }

  function WithNewlines(ls: seq<seq<octet>>): (r: seq<seq<octet>>)
    ensures |r| == |ls| && forall i :: 0 <= i < |ls| ==> r[i] == ls[i] + [10]
  {
    seq(|ls|, i requires 0 <= i < |ls| => ls[i] + [10])
  }

  lemma {:induction false} FeedPlain(p: Parse, l: seq<octet>)
    requires NEWLINE !in l
    ensures FeedAll(p, l) == Parse(p.lines, p.rest + l)
  {
    if l != [] {
      FeedPlain(p, l[..|l| - 1]);
      assert l == l[..|l| - 1] + [l[|l| - 1]];
    }
  }

  lemma FeedLine(p: Parse, l: seq<octet>)
    requires p.rest == [] && TextLine(l)
    ensures FeedAll(p, l + [10]) == Parse(p.lines + [l + [10]], []) && Fits(p, l + [10])
  {
    var s := l + [10];
    assert s[..|l|] == l && p.rest + l == l && s[..|s|] == s;
    FeedPlain(p, l);
    CStringIsPrefix(s, |s|);
    forall n | 0 <= n < |s| ensures |FeedAll(p, s[..n]).rest| < LIMIT {
      assert s[..n] == l[..n];
      FeedPlain(p, l[..n]);
    }
  }

  lemma {:induction false} FeedText(ls: seq<seq<octet>>)
    requires forall i :: 0 <= i < |ls| ==> TextLine(ls[i])
    ensures FeedAll(START, Text(ls)) == Parse(WithNewlines(ls), []) && Fits(START, Text(ls))
  {
    if ls != [] {
      var n := |ls| - 1;
      FeedText(ls[..n]);
      var p := FeedAll(START, Text(ls[..n]));
      FeedLine(p, ls[n]);
      FeedConcat(START, Text(ls[..n]), ls[n] + [10]);
      FitsConcat(START, Text(ls[..n]), ls[n] + [10]);
      assert WithNewlines(ls) == WithNewlines(ls[..n]) + [ls[n] + [10]];
    }
  }

  // However such a text is cut, its lines reach the parser as they stand and in order.
  lemma TextArrives(ls: seq<seq<octet>>, chunks: seq<seq<octet>>)
    requires forall i :: 0 <= i < |ls| ==> TextLine(ls[i])
    requires Concat(chunks) == Text(ls)
    ensures ProcessAll(Fresh(), chunks).handed == WithNewlines(ls) && ProcessAll(Fresh(), chunks).offset == 0
  {
    hide ProcessAll, Fits;
    FeedText(ls);
    FreshMeans();
    AllMeans(Fresh(), START, chunks);
    MeansLimit(ProcessAll(Fresh(), chunks), FeedAll(START, Text(ls)));
  }

  // ---- two ways of reading ----

  // What one read can bring, worker_thread's buffer having 1024 bytes.
  const READ: nat := 1024

  ghost predicate ReadsOf(s: seq<octet>, chunks: seq<seq<octet>>) {
    Concat(chunks) == s && forall i :: 0 <= i < |chunks| ==> 1 <= |chunks[i]| <= READ
  }

  lemma {:induction false} ConcatAppend(a: seq<seq<octet>>, b: seq<seq<octet>>)
    ensures Concat(a + b) == Concat(a) + Concat(b)
  {
    if a == [] {
      assert a + b == b;
    } else {
      assert (a + b)[1..] == a[1..] + b;
      ConcatAppend(a[1..], b);
    }
  }

  lemma {:induction false} ProcessAppend(r: Raw, a: seq<seq<octet>>, b: seq<seq<octet>>)
    requires |r.buf| == SIZE && r.offset <= LIMIT
    ensures ProcessAll(r, a + b) == ProcessAll(ProcessAll(r, a), b)
    decreases |a|
  {
    if a == [] {
      assert a + b == b;
    } else {
      assert (a + b)[0] == a[0] && (a + b)[1..] == a[1..] + b;
      ProcessAppend(Process(r, a[0]).0, a[1..], b);
    }
  }

  // A stream read byte by byte.
  function Singles(s: seq<octet>): seq<seq<octet>> {
    if s == [] then [] else [[s[0]]] + Singles(s[1..])
  }

  lemma {:induction false} SinglesRead(s: seq<octet>)
    ensures ReadsOf(s, Singles(s))
  {
    if s != [] { SinglesRead(s[1..]); }
  }

  // How many lines are handed over depends on the offset and not on what the buffer holds.
  lemma {:induction false} SameCount(r: Raw, q: Raw, chunk: seq<octet>)
    requires |r.buf| == |q.buf| == SIZE && r.offset == q.offset <= LIMIT
    ensures Process(r, chunk).0.offset == Process(q, chunk).0.offset
    ensures |Process(r, chunk).0.handed| - |r.handed| == |Process(q, chunk).0.handed| - |q.handed|
    decreases |chunk|
  {
    if chunk != [] && r.offset < LIMIT {
      var a, b := r.buf[r.offset := chunk[0]], q.buf[q.offset := chunk[0]];
      if chunk[0] == NEWLINE {
        SameCount(Raw(Blank(), 0, r.handed + [CString(a)]), Raw(Blank(), 0, q.handed + [CString(b)]), chunk[1..]);
      } else {
        SameCount(Raw(a, r.offset + 1, r.handed), Raw(b, q.offset + 1, q.handed), chunk[1..]);
      }
    }
  }

  lemma {:induction false} SameCounts(r: Raw, q: Raw, chunks: seq<seq<octet>>)
    requires |r.buf| == |q.buf| == SIZE && r.offset == q.offset <= LIMIT
    ensures |ProcessAll(r, chunks).handed| - |r.handed| == |ProcessAll(q, chunks).handed| - |q.handed|
    decreases |chunks|
  {
    if chunks != [] {
      SameCount(r, q, chunks[0]);
      SameCounts(Process(r, chunks[0]).0, Process(q, chunks[0]).0, chunks[1..]);
    }
  }

  // A call at the limit drops its chunk and starts over.
  lemma Drops(r: Raw, a: seq<octet>)
    requires |r.buf| == SIZE && r.offset == LIMIT && a != []
    ensures Process(r, a) == (r.(offset := 0), false)
  {
  }

  lemma EndOfLine(r: Raw)
    requires |r.buf| == SIZE && r.offset <= LIMIT
    ensures var q := Process(r, [NEWLINE]).0;
            q.offset == 0 && |q.handed| == |r.handed| + if r.offset < LIMIT then 1 else 0
  {
    var one := [NEWLINE];
    assert one[1..] == [];
  }

  lemma OneCall(r: Raw, a: seq<octet>)
    requires |r.buf| == SIZE && r.offset <= LIMIT
    ensures ProcessAll(r, [a]) == Process(r, a).0
    ensures Concat([a]) == a
  {
    assert [a][1..] == [];
  }

  lemma TwoCalls(r: Raw, a: seq<octet>, b: seq<octet>)
    requires |r.buf| == SIZE && r.offset <= LIMIT
    ensures ProcessAll(r, [a, b]) == Process(Process(r, a).0, b).0
    ensures Concat([a, b]) == a + b
  {
    assert [a, b][1..] == [b];
    OneCall(Process(r, a).0, b);
  }

  // Dropping a, then taking b and a newline.
  lemma DropThenLine(r: Raw, a: seq<octet>, b: seq<octet>)
    requires |r.buf| == SIZE && r.offset == LIMIT && a != [] && NEWLINE !in b && |b| <= LIMIT
    ensures Concat([a, b, [NEWLINE]]) == a + b + [NEWLINE]
    ensures var q := ProcessAll(r, [a, b, [NEWLINE]]);
            q.offset == 0 && |q.handed| == |r.handed| + if |b| < LIMIT then 1 else 0
  {
    hide Process;
    var q := r.(offset := 0);
    Drops(r, a);
    PlainChunk(q, b);
    EndOfLine(Process(q, b).0);
    assert [a, b, [NEWLINE]][1..] == [b, [NEWLINE]];
    TwoCalls(q, b, [NEWLINE]);
  }

  lemma ThreeParts(t: seq<octet>, k: nat)
    requires 1 <= k < |t| - 1 && t[|t| - 1] == NEWLINE && NEWLINE !in t[1..|t| - 1]
    ensures t == t[..k] + t[k..|t| - 1] + [NEWLINE] && NEWLINE !in t[k..|t| - 1]
  {
    assert t[k..|t| - 1] == t[1..|t| - 1][k - 1..];
  }

  // At the limit, with t up to its first newline to come: one way of reading t drops that newline,
  // another takes it.
  lemma {:induction false} Fork(r: Raw, t: seq<octet>) returns (cs: seq<seq<octet>>, ds: seq<seq<octet>>)
    requires |r.buf| == SIZE && r.offset == LIMIT
    requires |t| >= 2 && t[|t| - 1] == NEWLINE && NEWLINE !in t[1..|t| - 1]
    ensures ReadsOf(t, cs) && ReadsOf(t, ds)
    ensures var q, q' := ProcessAll(r, cs), ProcessAll(r, ds);
            q.offset == q'.offset == 0 && |q.handed| == |r.handed| && |q'.handed| == |r.handed| + 1
    decreases |t|
  {
    hide Process, ProcessAll, Concat;
    var d := |t| - 1;
    assert t[d..] == [NEWLINE];
    if d < READ {
      cs, ds := [t], [t[..d], [NEWLINE]];
      OneCall(r, t);
      Drops(r, t);
      TwoCalls(r, t[..d], [NEWLINE]);
      Drops(r, t[..d]);
      EndOfLine(r.(offset := 0));
      assert t == t[..d] + [NEWLINE];
    } else if d == READ {
      cs, ds := [t[..1], t[1..d], [NEWLINE]], [t[..2], t[2..d], [NEWLINE]];
      DropThenLine(r, t[..1], t[1..d]);
      ThreeParts(t, 1);
      ThreeParts(t, 2);
      DropThenLine(r, t[..2], t[2..d]);
    } else {
      var head, run, tail := t[..1], t[1..READ], t[READ..];
      assert run == t[1..d][..LIMIT] && tail[1..|tail| - 1] == t[1..d][READ..];
      TwoCalls(r, head, run);
      Drops(r, head);
      PlainChunk(r.(offset := 0), run);
      var q := ProcessAll(r, [head, run]);
      var xs, ys := Fork(q, tail);
      cs, ds := [head, run] + xs, [head, run] + ys;
      ProcessAppend(r, [head, run], xs);
      ProcessAppend(r, [head, run], ys);
      ConcatAppend([head, run], xs);
      ConcatAppend([head, run], ys);
      assert t == head + run + tail;
    }
  }

  lemma JoinReads(s: seq<octet>, t: seq<octet>, a: seq<seq<octet>>, b: seq<seq<octet>>)
    requires ReadsOf(s, a) && ReadsOf(t, b)
    ensures ReadsOf(s + t, a + b)
  {
    hide Concat;
    ConcatAppend(a, b);
  }

  lemma Between(s: seq<octet>, t: seq<octet>, u: seq<octet>, a: seq<seq<octet>>, b: seq<seq<octet>>, c: seq<seq<octet>>)
    requires ReadsOf(s, a) && ReadsOf(t, b) && ReadsOf(u, c)
    ensures ReadsOf(s + (t + u), a + (b + c))
    ensures ProcessAll(Fresh(), a + (b + c)) == ProcessAll(ProcessAll(ProcessAll(Fresh(), a), b), c)
  {
    hide ReadsOf, ProcessAll;
    JoinReads(t, u, b, c);
    JoinReads(s, t + u, a, b + c);
    ProcessAppend(Fresh(), a, b + c);
    ProcessAppend(ProcessAll(Fresh(), a), b, c);
  }

  lemma {:induction false} FirstNewline(s: seq<octet>) returns (n: nat)
    requires NEWLINE in s
    ensures n < |s| && s[n] == NEWLINE && NEWLINE !in s[..n]
  {
    if s[0] == NEWLINE {
      n := 0;
    } else {
      n := FirstNewline(s[1..]);
      n := n + 1;
      assert s[..n] == [s[0]] + s[1..][..n - 1];
    }
  }

  lemma UpToNewline(s: seq<octet>, o: nat, n: nat)
    requires o + 1 + n < |s| && s[o + 1..][n] == NEWLINE && NEWLINE !in s[o + 1..][..n]
    ensures var t := s[o..o + n + 2];
            && |t| == n + 2 && t[n + 1] == NEWLINE && NEWLINE !in t[1..n + 1]
            && s == s[..o] + (t + s[o + n + 2..])
  {
    var t := s[o..o + n + 2];
    forall k | 1 <= k <= n ensures t[k] != NEWLINE {
      assert t[k] == s[o + 1..][..n][k - 1];
    }
    assert t + s[o + n + 2..] == s[o..];
  }

  // A newline after the place where a line gets too long is handed over or not, as the reads fall.
  lemma TwoWays(s: seq<octet>) returns (cs: seq<seq<octet>>, ds: seq<seq<octet>>)
    requires !LongLineIsLast(s)
    ensures ReadsOf(s, cs) && ReadsOf(s, ds)
    ensures |ProcessAll(Fresh(), ds).handed| == |ProcessAll(Fresh(), cs).handed| + 1
  {
    hide LongLineIsLast, ReadsOf, ProcessAll, Process, Fits, FeedAll, Cut, Singles;
    var o := Cut(START, s);
    LongLineAtCut(s);
    CutMeans(START, s);
    var n := FirstNewline(s[o + 1..]);
    var m := o + n + 2;
    var pre, post := Singles(s[..o]), Singles(s[m..]);
    SinglesRead(s[..o]);
    SinglesRead(s[m..]);
    var r := ProcessAll(Fresh(), pre);
    AtTheLimit(s[..o]);
    var t := s[o..m];
    UpToNewline(s, o, n);
    var xs, ys := Fork(r, t);
    cs, ds := pre + (xs + post), pre + (ys + post);
    Between(s[..o], t, s[m..], pre, xs, post);
    Between(s[..o], t, s[m..], pre, ys, post);
    SameCounts(ProcessAll(r, xs), ProcessAll(r, ys), post);
  }

  // A stream taken without error leaves the unfinished line in the buffer.
  lemma {:induction false} AllMeans(r: Raw, p: Parse, chunks: seq<seq<octet>>)
    requires Means(r, p) && Fits(p, Concat(chunks))
    ensures Means(ProcessAll(r, chunks), FeedAll(p, Concat(chunks)))
    decreases |chunks|
  {
    if chunks != [] {
      hide Process, Means, Fits;
      var c, rest := chunks[0], Concat(chunks[1..]);
      MeansLimit(r, p);
      FitsConcat(p, c, rest);
      FeedConcat(p, c, rest);
      ProcessMeans(r, p, c);
      AllMeans(Process(r, c).0, FeedAll(p, c), chunks[1..]);
    }
  }

  lemma AtTheLimit(s: seq<octet>)
    requires Fits(START, s) && |FeedAll(START, s).rest| == LIMIT
    ensures ProcessAll(Fresh(), Singles(s)).offset == LIMIT
  {
    hide Fits;
    SinglesRead(s);
    FreshMeans();
    AllMeans(Fresh(), START, Singles(s));
  }

  // The lines handed over depend only on the stream, and not on how reads of up to 1024 bytes cut it,
  // if and only if no newline follows a place where a line gets too long.
  lemma SameLinesIff(s: seq<octet>)
    ensures (forall cs, ds :: ReadsOf(s, cs) && ReadsOf(s, ds) ==>
              ProcessAll(Fresh(), cs).handed == ProcessAll(Fresh(), ds).handed)
       <==> LongLineIsLast(s)
  {
    if LongLineIsLast(s) {
      forall cs | ReadsOf(s, cs)
        ensures ProcessAll(Fresh(), cs).handed == FeedAll(START, s[..Cut(START, s)]).lines
      {
        LinesBeforeCut(s, cs);
      }
    } else {
      var cs, ds := TwoWays(s);
    }
  }

  // What is handed over in the one case, whatever the sizes of the reads.
  lemma LinesBeforeCut(s: seq<octet>, chunks: seq<seq<octet>>)
    requires LongLineIsLast(s) && Concat(chunks) == s
    ensures ProcessAll(Fresh(), chunks).handed == FeedAll(START, s[..Cut(START, s)]).lines
  {
    LongLineAtCut(s);
    FreshMeans();
    HandsOver(Fresh(), START, chunks);
  }

  lemma {:induction false} CStringLength(a: seq<octet>, n: nat)
    requires n < |a| && a[n] == 0 && forall i :: 0 <= i < n ==> a[i] != 0
    ensures |CString(a)| == n
  {
    if n > 0 { CStringLength(a[1..], n - 1); }
  }

  function Run(n: nat): seq<octet> { seq(n, _ => 97) }

  // Plain bytes go to the buffer one after the other.
  lemma {:induction false} ProcessRun(r: Raw, n: nat)
    requires |r.buf| == SIZE && r.offset + n <= LIMIT
    ensures Process(r, Run(n)).0
         == Raw(r.buf[..r.offset] + Run(n) + r.buf[r.offset + n..], r.offset + n, r.handed)
    decreases n
  {
    if n == 0 {
      assert r.buf[..r.offset] + Run(0) + r.buf[r.offset..] == r.buf;
    } else {
      assert Run(n)[1..] == Run(n - 1);
      var r' := Raw(r.buf[r.offset := 97], r.offset + 1, r.handed);
      ProcessRun(r', n - 1);
      assert r'.buf[..r.offset + 1] + Run(n - 1) + r'.buf[r.offset + n..]
          == r.buf[..r.offset] + Run(n) + r.buf[r.offset + n..];
    }
  }

  // The smallest case: 1023 bytes, one more, and a newline. If the last two are read together nothing
  // is handed over; read apart they yield one string, and the stale buffer makes 1023 bytes of what
  // should be an empty line.
  lemma LongLineDependsOnChunks()
    ensures var a, b := Run(1023), [98];
            && ProcessAll(Fresh(), [a, b + [NEWLINE]]).handed == []
            && var h := ProcessAll(Fresh(), [a, b, [NEWLINE]]).handed; |h| == 1 && |h[0]| == 1023
  {
    hide CString, Process, ProcessAll, Concat;
    var a, b := Run(1023), [98];
    ProcessRun(Fresh(), 1023);
    var r := Process(Fresh(), a).0;
    Drops(r, b + [NEWLINE]);
    Drops(r, b);
    TwoCalls(Fresh(), a, b + [NEWLINE]);
    var q := r.(offset := 0);
    assert [a, b, [NEWLINE]] == [a, b] + [[NEWLINE]];
    ProcessAppend(Fresh(), [a, b], [[NEWLINE]]);
    TwoCalls(Fresh(), a, b);
    OneCall(q, [NEWLINE]);
    StaleLine(q);
    CStringLength(r.buf[0 := NEWLINE], 1023);
  }

  lemma StaleLine(q: Raw)
    requires |q.buf| == SIZE && q.offset == 0
    ensures Process(q, [NEWLINE]).0.handed == q.handed + [CString(q.buf[0 := NEWLINE])]
  {
    var one := [NEWLINE];
    assert one[1..] == [];
  }
}
