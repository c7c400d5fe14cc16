// The session record of the log collector (logCollectSrv.c): two halves of one memory block,
// a current half being filled by the network thread and possibly a half handed to the disk thread.
// Each function on Fields is one lock-protected section (or one unlocked append); the class
// carries the same sections out in place on the memory block.
module LogSession {
  import opened Octets

  const NET_READ_BUF: nat := 4096
  const DEFAULT_DATA_BLOCK_SIZE: nat := 65536
  const STEP_DATA_BLOCK_SIZE: nat := 8192
  const MAX_DATA_BLOCK_SIZE: nat := 131072

  datatype Half = Buf1 | Buf2 {
    function Other(): Half { if this == Buf1 then Buf2 else Buf1 }
  }

  datatype DiskBuf = Null | At(half: Half)

  datatype Fields = Fields(
    half1: seq<octet>, half2: seq<octet>, memLen: nat,
    cur: Half, offset: nat, disk: DiskBuf, dlen: nat,
    inProgress: bool, stuck: bool, flushDue: bool, delayFree: bool, closed: bool)
  {
    function Mem(h: Half): seq<octet> { if h == Buf1 then half1 else half2 }

    ghost predicate Sized() {
      |half1| == |half2| == memLen && offset <= memLen && dlen <= memLen
    }

    // The bytes gathered in the current half, and those waiting in the half handed over.
    function CurBytes(): seq<octet>
      requires Sized()
    {
      Mem(cur)[..offset]
    }

    function PendingBytes(): seq<octet>
      requires Sized()
    {
      if disk.Null? then [] else Mem(disk.half)[..dlen]
    }

    // The test at `recheck`: would the buffer be unable to take len bytes and one more read?
    predicate Full(len: nat) {
      offset + len + NET_READ_BUF > memLen
    }
  }

  // get_new_session
  function NewSession(): Fields {
    var zeros := seq(DEFAULT_DATA_BLOCK_SIZE, _ => 0);
    Fields(zeros, zeros, DEFAULT_DATA_BLOCK_SIZE, Buf1, 0, Null, 0, false, false, false, false, false)
  }

  // memcpy of len bytes to cur_buf + membuf_offset
  function Append(f: Fields, b: seq<octet>): Fields
    requires f.Sized() && f.offset + |b| <= f.memLen
  {
    var m := f.Mem(f.cur);
    var m' := m[..f.offset] + b + m[f.offset + |b|..];
    (if f.cur == Buf1 then f.(half1 := m') else f.(half2 := m')).(offset := f.offset + |b|)
  }

  // Hand the current half to the disk thread and go on with the other one.
  function Swap(f: Fields): Fields {
    f.(cur := f.cur.Other(), disk := At(f.cur), dlen := f.offset, offset := 0)
  }

  // The lock section of the timeout flush in disk_write_thread.
  function Flush(f: Fields): Fields {
    if f.disk.Null? && !f.inProgress then Swap(f) else f
  }

  // The new half size chosen by enlarge_session_buf: steps of 8 KiB until the gap is covered.
  function NewLen(len: nat, want: nat): (r: nat)
    ensures r >= len && r >= want
    decreases want - len
  {
    if len < want then NewLen(len + STEP_DATA_BLOCK_SIZE, want) else len
  }

  // The sizes enlarge_session_buf can arrive at: larger by whole steps of 8 KiB, and sufficient.
  predicate Grown(len: nat, want: nat, n: nat) {
    n > len && (n - len) % 8192 == 0 && n >= want
  }

  ghost predicate LeastGrown(len: nat, want: nat, n: nat) {
    Grown(len, want, n) && forall m: nat :: m < n ==> !Grown(len, want, m)
  }

  // One of them is within the limit of 128 KiB.
  ghost predicate GrowsWithinLimit(len: nat, want: nat) {
    exists n: nat :: Grown(len, want, n) && n <= 131072
  }

  lemma {:induction false} NewLenIsLeast(base: nat, len: nat, want: nat)
    requires len > base && (len - base) % 8192 == 0
    requires forall n: nat :: n < len ==> !Grown(base, want, n)
    ensures LeastGrown(base, want, NewLen(len, want))
    decreases want - len
  {
    if len < want {
      forall n: nat | n < len + STEP_DATA_BLOCK_SIZE ensures !Grown(base, want, n) {
        if len < n && (n - base) % 8192 == 0 { NextStep(base, len, n); }
      }
      NewLenIsLeast(base, len + STEP_DATA_BLOCK_SIZE, want);
    }
  }

  lemma NextStep(base: nat, len: nat, n: nat)
    requires base <= len < n && (len - base) % 8192 == 0 && (n - base) % 8192 == 0
    ensures len + 8192 <= n
  {
  }

  lemma EnlargedLenIsLeast(f: Fields, len: nat)
    ensures LeastGrown(f.memLen, f.offset + len + 4096, EnlargedLen(f, len))
    ensures GrowsWithinLimit(f.memLen, f.offset + len + 4096) <==> EnlargedLen(f, len) <= MAX_DATA_BLOCK_SIZE
  {
    var want := f.offset + len + 4096;
    forall n: nat | n < f.memLen + STEP_DATA_BLOCK_SIZE ensures !Grown(f.memLen, want, n) {
      if n > f.memLen && (n - f.memLen) % 8192 == 0 { NextStep(f.memLen, f.memLen, n); }
    }
    NewLenIsLeast(f.memLen, f.memLen + STEP_DATA_BLOCK_SIZE, f.offset + len + NET_READ_BUF);
  }

  function EnlargedLen(f: Fields, len: nat): nat {
    NewLen(f.memLen + STEP_DATA_BLOCK_SIZE, f.offset + len + NET_READ_BUF)
  }

  // enlarge_session_buf gives up on a young session, beyond 128 KiB (the session's rate being
  // below 256 KiB/s), and when memory is short.
  predicate CanEnlarge(f: Fields, len: nat, steady: bool, memory: bool) {
    steady && EnlargedLen(f, len) <= MAX_DATA_BLOCK_SIZE && memory
  }

  function Enlarge(f: Fields, n: nat): Fields
    requires f.Sized() && f.disk.At? && f.memLen <= n
  {
    f.(half1 := f.CurBytes() + seq(n - f.offset, _ => 0),
       half2 := f.PendingBytes() + seq(n - f.dlen, _ => 0),
       memLen := n, cur := Buf1, disk := At(Buf2))
  }

  // The two lock sections of write2disk, around the write itself.
  function Claim(f: Fields): Fields {
    f.(inProgress := true, disk := Null)
  }

  function Finish(f: Fields): Fields {
    f.(dlen := 0, inProgress := false, stuck := false)
  }

  // free_session_step2, for a session that has a slot.
  function CloseSession(f: Fields): Fields {
    if f.offset > 0 then
      if f.disk.Null? then
        f.(dlen := f.offset, disk := At(f.cur), delayFree := true, offset := 0, closed := true)
      else
        f.(delayFree := true, closed := true)
    else
      f.(closed := true)
  }

  // The second pass set up after a write on an orphan session.
  function SecondPass(f: Fields): Fields {
    f.(disk := At(f.cur), dlen := f.offset, offset := 0)
  }

  // What the sections mean for the bytes: the facts the protocol proof needs of the memory.

  lemma AppendBytes(f: Fields, b: seq<octet>)
    requires f.Sized() && f.offset + |b| <= f.memLen
    ensures Append(f, b).Sized()
    ensures Append(f, b).CurBytes() == f.CurBytes() + b
    ensures Append(f, b).Mem(f.cur.Other()) == f.Mem(f.cur.Other())
    ensures f.disk != At(f.cur) ==> Append(f, b).PendingBytes() == f.PendingBytes()
  {
  }

  lemma EnlargeBytes(f: Fields, n: nat)
    requires f.Sized() && f.disk.At? && f.memLen <= n
    ensures Enlarge(f, n).Sized()
    ensures Enlarge(f, n).CurBytes() == f.CurBytes()
    ensures Enlarge(f, n).PendingBytes() == f.PendingBytes()
  {
  }

  // memcpy between different blocks
  method Memcpy(dst: array<octet>, d: nat, src: array<octet>, s: nat, n: nat)
    requires dst != src && d + n <= dst.Length && s + n <= src.Length
    modifies dst
    ensures dst[..] == old(dst[..])[..d] + src[s..s + n] + old(dst[..])[d + n..]
  {
    ghost var before := dst[..];
    var i := 0;
    while i < n
      invariant 0 <= i <= n
      invariant dst[..] == before[..d] + src[s..s + i] + before[d + i..]
    {
      dst[d + i] := src[s + i];
      i := i + 1;
    }
  }

  // Overwriting n bytes at offset o of one half of a block leaves the other half alone.
  lemma OverwriteHalf(block: seq<octet>, m: nat, c: nat, o: nat, b: seq<octet>, block': seq<octet>)
    requires |block| == 2 * m && (c == 0 || c == m) && o + |b| <= m
    requires block' == block[..c + o] + b + block[c + o + |b|..]
    ensures c == 0 ==> block'[..m] == block[..m][..o] + b + block[..m][o + |b|..] && block'[m..] == block[m..]
    ensures c == m ==> block'[m..] == block[m..][..o] + b + block[m..][o + |b|..] && block'[..m] == block[..m]
  {
  }

  // The members of the C record but for the block itself, pointers being indices into the block.
  datatype Record = Record(
    memLen: nat, curBuf: nat, offset: nat, diskBuf: int, dlen: nat,
    inProgress: bool, stuck: bool, flushDue: bool, delayFree: bool, closed: bool)
  {
    ghost predicate Fits(block: seq<octet>) {
      |block| == 2 * memLen && memLen > 0 && offset <= memLen && dlen <= memLen && (curBuf == 0 || curBuf == memLen)
    }
  }

  ghost function Read(block: seq<octet>, r: Record): (f: Fields)
    requires r.Fits(block)
    ensures f.Sized() && f.memLen == r.memLen && f.offset == r.offset && f.dlen == r.dlen
    ensures (f.disk.Null? <==> r.diskBuf == -1) && f.inProgress == r.inProgress && f.flushDue == r.flushDue
    ensures f.delayFree == r.delayFree && f.closed == r.closed
  {
    Fields(block[..r.memLen], block[r.memLen..], r.memLen, if r.curBuf == 0 then Buf1 else Buf2, r.offset,
           if r.diskBuf == -1 then Null else At(if r.diskBuf == 0 then Buf1 else Buf2), r.dlen,
           r.inProgress, r.stuck, r.flushDue, r.delayFree, r.closed)
  }

  lemma AppendHalves(block: seq<octet>, block': seq<octet>, r: Record, b: seq<octet>)
    requires r.Fits(block) && |block'| == |block| && r.offset + |b| <= r.memLen
    requires var old1, old2, new1, new2 := block[..r.memLen], block[r.memLen..], block'[..r.memLen], block'[r.memLen..];
             if r.curBuf == 0 then new1 == old1[..r.offset] + b + old1[r.offset + |b|..] && new2 == old2
             else new2 == old2[..r.offset] + b + old2[r.offset + |b|..] && new1 == old1
    ensures Read(block', r.(offset := r.offset + |b|)) == Append(Read(block, r), b)
  {
  }

  lemma ReadAppend(block: seq<octet>, block': seq<octet>, r: Record, b: seq<octet>)
    requires r.Fits(block) && r.offset + |b| <= r.memLen
    requires block' == block[..r.curBuf + r.offset] + b + block[r.curBuf + r.offset + |b|..]
    ensures Read(block', r.(offset := r.offset + |b|)) == Append(Read(block, r), b)
  {
    hide Append, Read;
    OverwriteHalf(block, r.memLen, r.curBuf, r.offset, b, block');
    AppendHalves(block, block', r, b);
  }

  // The two memcpy calls of enlarge_session_buf into a zeroed block.
  lemma EnlargedBlock(zero: seq<octet>, n: nat, first: seq<octet>, second: seq<octet>, mid: seq<octet>, last: seq<octet>)
    requires |zero| == 2 * n && |first| <= n && |second| <= n
    requires forall i :: 0 <= i < 2 * n ==> zero[i] == 0
    requires mid == zero[..0] + first + zero[0 + |first|..]
    requires last == mid[..n] + second + mid[n + |second|..]
    ensures last[..n] == first + seq(n - |first|, _ => 0)
    ensures last[n..] == second + seq(n - |second|, _ => 0)
  {
    assert forall i :: |first| <= i < 2 * n ==> mid[i] == 0;
    assert forall i :: 0 <= i < n ==> last[i] == mid[i];
    assert forall i :: n + |second| <= i < 2 * n ==> last[i] == mid[i];
    assert last[n..] == second + mid[n + |second|..];
  }

  lemma ReadSlices(block: seq<octet>, r: Record)
    requires r.Fits(block) && (r.diskBuf == 0 || r.diskBuf == r.memLen)
    ensures var f := Read(block, r);
            && f.CurBytes() == block[r.curBuf..r.curBuf + r.offset]
            && f.PendingBytes() == block[r.diskBuf..r.diskBuf + r.dlen]
  {
  }

  lemma ReadEnlarge(block: seq<octet>, r: Record, n: nat, last: seq<octet>)
    requires r.Fits(block) && (r.diskBuf == 0 || r.diskBuf == r.memLen) && r.memLen <= n && |last| == 2 * n
    requires last[..n] == block[r.curBuf..r.curBuf + r.offset] + seq(n - r.offset, _ => 0)
    requires last[n..] == block[r.diskBuf..r.diskBuf + r.dlen] + seq(n - r.dlen, _ => 0)
    ensures Read(last, r.(memLen := n, curBuf := 0, diskBuf := n)) == Enlarge(Read(block, r), n)
  {
    ReadSlices(block, r);
  }

  // calloc of a block of two halves of n bytes, with one stretch copied to the start of each.
  method CallocCopies(src: array<octet>, a: nat, la: nat, b: nat, lb: nat, n: nat) returns (dst: array<octet>)
    requires a + la <= src.Length && b + lb <= src.Length && la <= n && lb <= n
    ensures fresh(dst) && dst.Length == 2 * n
    ensures dst[..][..n] == src[..][a..a + la] + seq(n - la, _ => 0)
    ensures dst[..][n..] == src[..][b..b + lb] + seq(n - lb, _ => 0)
  {
    dst := new octet[2 * n](_ => 0);
    ghost var zero := dst[..];
    Memcpy(dst, 0, src, a, la);
    ghost var mid := dst[..];
    Memcpy(dst, n, src, b, lb);
    EnlargedBlock(zero, n, src[a..a + la], src[b..b + lb], mid, dst[..]);
    assert src[..][a..a + la] == src[a..a + la] && src[..][b..b + lb] == src[b..b + lb];
  }

  class Session {
    var block: array<octet>      // buf1 is its first half, buf2 its second
    var memBufLen: nat
    var curBuf: nat             // cur_buf, as an index into the block
    var diskBuf: int            // disk_buf, -1 for NULL
    var membufOffset: nat
    var diskWriteBufLen: nat
    var diskIoInProgress: bool
    var bufFullStuck: bool
    var timeOutNeedFlushToDisk: bool
    var needDelayFree: bool
    var inDeleteStage: nat

    ghost predicate Valid()
      reads this, block
    {
      && block.Length == 2 * memBufLen && memBufLen > 0
      && (curBuf == 0 || curBuf == memBufLen)
      && (diskBuf == -1 || diskBuf == 0 || diskBuf == memBufLen)
      && membufOffset <= memBufLen && diskWriteBufLen <= memBufLen
      && (inDeleteStage == 0 || inDeleteStage == 20)
    }

    ghost function Rec(): (r: Record)
      requires Valid()
      reads this, block
      ensures r.Fits(block[..])
    {
      Record(memBufLen, curBuf, membufOffset, diskBuf, diskWriteBufLen,
             diskIoInProgress, bufFullStuck, timeOutNeedFlushToDisk, needDelayFree, inDeleteStage == 20)
    }

    ghost function View(): (f: Fields)
      requires Valid()
      reads this, block
      ensures f.Sized()
    {
      Read(block[..], Rec())
    }

    constructor ()
      ensures Valid() && fresh(block) && View() == NewSession()
      ensures memBufLen == 65536 && block.Length == 131072 && curBuf == 0 && diskBuf == -1 && membufOffset == 0
      ensures !diskIoInProgress && !bufFullStuck && !timeOutNeedFlushToDisk && !needDelayFree && inDeleteStage == 0
    {
      block := new octet[2 * DEFAULT_DATA_BLOCK_SIZE](_ => 0);
      memBufLen, curBuf, diskBuf := DEFAULT_DATA_BLOCK_SIZE, 0, -1;
      membufOffset, diskWriteBufLen := 0, 0;
      diskIoInProgress, bufFullStuck, timeOutNeedFlushToDisk, needDelayFree := false, false, false, false;
      inDeleteStage := 0;
    }

    method CopyIn(b: array<octet>, len: nat)
      requires Valid() && b != block && len <= b.Length && membufOffset + len <= memBufLen
      modifies `membufOffset, block
      ensures Valid() && View() == Append(old(View()), b[..len]) && membufOffset == old(membufOffset) + len
    {
      hide Append, Read;
      ghost var before := block[..];
      Memcpy(block, curBuf + membufOffset, b, 0, len);
      assert b[0..len] == b[..len];
      ReadAppend(before, block[..], Rec(), b[..len]);
      membufOffset := membufOffset + len;
    }

    method SwapBuffers()
      requires Valid()
      modifies `curBuf, `diskBuf, `diskWriteBufLen, `membufOffset
      ensures Valid() && View() == Swap(old(View())) && membufOffset == 0
      ensures diskBuf == old(curBuf) != curBuf && diskWriteBufLen == old(membufOffset)
    {
      if curBuf == 0 {
        curBuf, diskBuf := memBufLen, 0;
      } else {
        curBuf, diskBuf := 0, memBufLen;
      }
      diskWriteBufLen := membufOffset;
      membufOffset := 0;
    }

    method TimeoutFlush()
      requires Valid()
      modifies `curBuf, `diskBuf, `diskWriteBufLen, `membufOffset
      ensures Valid() && View() == Flush(old(View()))
      ensures if old(diskBuf) == -1 && !diskIoInProgress
              then diskBuf == old(curBuf) != curBuf && diskWriteBufLen == old(membufOffset) && membufOffset == 0
              else diskBuf == old(diskBuf) && curBuf == old(curBuf) && membufOffset == old(membufOffset)
                   && diskWriteBufLen == old(diskWriteBufLen)
    {
      if diskBuf == -1 && !diskIoInProgress {
        SwapBuffers();
      }
    }

    // enlarge_session_buf: 0 on success, as in the source.
    method EnlargeSessionBuf(gap: int, len: nat, steady: bool, memory: bool) returns (rc: int)
      requires Valid() && diskBuf != -1
      requires gap == membufOffset + len + NET_READ_BUF - memBufLen
      modifies `block, `memBufLen, `curBuf, `diskBuf
      ensures Valid()
      ensures rc == 1 <==> !steady
      ensures rc == 2 <==> steady && !GrowsWithinLimit(old(memBufLen), membufOffset + len + 4096)
      ensures rc == -1 <==> steady && GrowsWithinLimit(old(memBufLen), membufOffset + len + 4096) && !memory
      ensures rc == 0 <==> steady && GrowsWithinLimit(old(memBufLen), membufOffset + len + 4096) && memory
      ensures rc == 0 ==> LeastGrown(old(memBufLen), membufOffset + len + 4096, memBufLen)
      ensures rc == 0 ==> curBuf == 0 && diskBuf == memBufLen
      ensures rc == 0 <==> CanEnlarge(old(View()), len, steady, memory)
      ensures rc == 0 ==> memBufLen == EnlargedLen(old(View()), len)
      ensures rc == 0 ==> fresh(block) && View() == Enlarge(old(View()), EnlargedLen(old(View()), len))
      ensures rc != 0 ==> View() == old(View()) && block == old(block)
    {
      hide Enlarge, Read;
      ghost var f := View();
      var newLen := memBufLen + STEP_DATA_BLOCK_SIZE;
      ghost var target := EnlargedLen(f, len);
      EnlargedLenIsLeast(f, len);
      while newLen < memBufLen + gap
        invariant newLen >= memBufLen + STEP_DATA_BLOCK_SIZE
        invariant NewLen(newLen, membufOffset + len + NET_READ_BUF) == target
        decreases memBufLen + gap - newLen
      {
        newLen := newLen + STEP_DATA_BLOCK_SIZE;
      }
      if !steady {
        return 1;
      }
      if newLen > MAX_DATA_BLOCK_SIZE {
        return 2;
      }
      if !memory {
        return -1;
      }
      Relocate(newLen);
      return 0;
    }

    // The allocation, the two copies and the pointer changes at the end of enlarge_session_buf.
    method Relocate(newLen: nat)
      requires Valid() && diskBuf != -1 && memBufLen <= newLen
      modifies `block, `memBufLen, `curBuf, `diskBuf
      ensures Valid() && fresh(block) && memBufLen == newLen && curBuf == 0 && diskBuf == newLen
      ensures View() == Enlarge(old(View()), newLen)
    {
      hide Enlarge, Read;
      block := CopyHalves(newLen);
      memBufLen, curBuf, diskBuf := newLen, 0, newLen;
    }

    method CopyHalves(newLen: nat) returns (newBlock: array<octet>)
      requires Valid() && diskBuf != -1 && memBufLen <= newLen
      ensures fresh(newBlock) && newBlock.Length == 2 * newLen
      ensures Read(newBlock[..], Rec().(memLen := newLen, curBuf := 0, diskBuf := newLen)) == Enlarge(View(), newLen)
    {
      hide Enlarge, Read;
      newBlock := CallocCopies(block, curBuf, membufOffset, diskBuf, diskWriteBufLen, newLen);
      ReadEnlarge(block[..], Rec(), newLen, newBlock[..]);
    }

    // The first lock section of write2disk, returning the claimed buffer and its length.
    method ClaimBuffer() returns (buf: int, len: nat)
      requires Valid() && diskBuf != -1
      modifies `diskIoInProgress, `diskBuf
      ensures Valid() && View() == Claim(old(View()))
      ensures buf == old(diskBuf) && len == diskWriteBufLen
    {
      diskIoInProgress := true;
      buf := diskBuf;
      diskBuf := -1;
      len := diskWriteBufLen;
    }

    method FinishWrite()
      requires Valid()
      modifies `diskWriteBufLen, `diskIoInProgress, `bufFullStuck
      ensures Valid() && View() == Finish(old(View()))
    {
      diskWriteBufLen := 0;
      diskIoInProgress := false;
      bufFullStuck := false;
    }

    method FreeSessionStep2()
      requires Valid()
      modifies this
      ensures Valid() && block == old(block) && View() == CloseSession(old(View()))
      ensures inDeleteStage == 20 && needDelayFree == (old(needDelayFree) || old(membufOffset) > 0)
      ensures if old(membufOffset) > 0 && old(diskBuf) == -1
              then diskBuf == curBuf && diskWriteBufLen == old(membufOffset) && membufOffset == 0
              else diskBuf == old(diskBuf) && diskWriteBufLen == old(diskWriteBufLen) && membufOffset == old(membufOffset)
      ensures curBuf == old(curBuf) && memBufLen == old(memBufLen) && timeOutNeedFlushToDisk == old(timeOutNeedFlushToDisk)
      ensures diskIoInProgress == old(diskIoInProgress) && bufFullStuck == old(bufFullStuck)
    {
      if membufOffset > 0 {
        if diskBuf == -1 {
          diskWriteBufLen := membufOffset;
          diskBuf := curBuf;
          needDelayFree := true;
          membufOffset := 0;
        } else {
          needDelayFree := true;
        }
      }
      inDeleteStage := 20;
    }

    method QueueSecondPass()
      requires Valid()
      modifies `diskBuf, `diskWriteBufLen, `membufOffset
      ensures Valid() && View() == SecondPass(old(View()))
      ensures diskBuf == curBuf && diskWriteBufLen == old(membufOffset) && membufOffset == 0
    {
      diskBuf := curBuf;
      diskWriteBufLen := membufOffset;
      membufOffset := 0;
    }

    // write2disk with nobody else at the session: 1005-1054 in a row. The file grows by the whole
    // pending buffer; -1 means that there was nothing to write.
    method Write2Disk(file: seq<octet>) returns (rc: int, file': seq<octet>)
      requires Valid()
      modifies `diskWriteBufLen, `diskIoInProgress, `bufFullStuck, `diskBuf
      ensures Valid()
      ensures old(View()).disk.Null? || old(View()).inProgress ==> rc == -1 && View() == old(View()) && file' == file
      ensures old(View()).disk.At? && !old(View()).inProgress ==>
                rc == old(diskWriteBufLen) && View() == Finish(Claim(old(View()))) && file' == file + old(View()).PendingBytes()
      ensures rc != -1 ==> diskBuf == -1 && diskWriteBufLen == 0 && !diskIoInProgress && !bufFullStuck
    {
      if diskIoInProgress || diskBuf == -1 {
        return -1, file;
      }
      ghost var pending := View().PendingBytes();
      var buf, nleft := ClaimBuffer();
      assert block[buf..buf + nleft] == pending;
      file' := file + block[buf..buf + nleft];
      rc := nleft;
      FinishWrite();
    }

    method SetFlushDue(due: bool)
      requires Valid()
      modifies `timeOutNeedFlushToDisk
      ensures Valid() && View() == old(View()).(flushDue := due)
    {
      timeOutNeedFlushToDisk := due;
    }

    // One visit of the disk thread with nobody else at the session; freed says that it was the last.
    method DiskVisit(file: seq<octet>, timedOut: bool) returns (file': seq<octet>, freed: bool)
      requires Valid() && !diskIoInProgress
      modifies this
      ensures Valid() && block == old(block)
      ensures (View(), file', freed) == VisitResult(old(View()), file, timedOut)
    {
      hide Flush, SecondPass, Read, Claim, Finish;
      file' := file;
      if inDeleteStage == 20 && !needDelayFree {
        return file, true;
      }
      if timeOutNeedFlushToDisk {
        TimeoutFlush();
        SetFlushDue(false);
      }
      if membufOffset > 0 && timedOut && !timeOutNeedFlushToDisk && diskBuf == -1 && !diskIoInProgress {
        SetFlushDue(true);
        return file, false;
      }
      if diskBuf == -1 || diskWriteBufLen < 1 {
        return file, false;
      }
      var rc;
      rc, file' := Write2Disk(file);
      if needDelayFree {
        if membufOffset > 0 {
          QueueSecondPass();
          return file', false;
        }
        return file', true;
      }
      return file', false;
    }

    // pass2write up to the point where it would have to wait for the disk thread: the append done,
    // or false when the disk thread is at work on the other half. The disk thread is taken not to
    // run meanwhile; what it may do in between is the subject of LogProtocol.
    method Pass2Write(b: array<octet>, len: nat, steady: bool, memory: bool) returns (done: bool)
      requires Valid() && b != block && 1 <= len <= b.Length && len <= NET_READ_BUF
      requires memBufLen >= 2 * NET_READ_BUF
      requires diskBuf != -1 ==> membufOffset + NET_READ_BUF <= memBufLen
      modifies this, block
      ensures Valid() && (block == old(block) || fresh(block))
      ensures View() == PassResult(old(View()), b[..len], steady, memory)
      ensures done <==> old(membufOffset) + len + 4096 <= old(memBufLen) || old(diskBuf) != -1 || !old(diskIoInProgress)
      ensures !done ==> View() == old(View())
      // a full session with a buffer waiting is enlarged if it can be, and marked stuck otherwise
      ensures old(membufOffset) + len + 4096 > old(memBufLen) && old(diskBuf) != -1 ==>
                if steady && memory && GrowsWithinLimit(old(memBufLen), old(membufOffset) + len + 4096)
                then LeastGrown(old(memBufLen), old(membufOffset) + len + 4096, memBufLen)
                else bufFullStuck && memBufLen == old(memBufLen) && block == old(block)
    {
      hide Append, Enlarge, CanEnlarge, Swap, LeastGrown, GrowsWithinLimit;
      done := true;
      if membufOffset + len + NET_READ_BUF > memBufLen {
        if diskBuf != -1 {
          var rc := EnlargeSessionBuf(membufOffset + len + NET_READ_BUF - memBufLen, len, steady, memory);
          if rc != 0 {
            bufFullStuck := true;
          }
        } else if diskIoInProgress {
          return false;
        } else {
          timeOutNeedFlushToDisk := false;
          SwapBuffers();
        }
      }
      CopyIn(b, len);
    }
  }

  // What one undisturbed visit of the disk thread makes of the session and the file, and whether it
  // frees the session.
  ghost function VisitResult(f: Fields, file: seq<octet>, timedOut: bool): (Fields, seq<octet>, bool)
    requires f.Sized() && !f.inProgress
  {
    if f.closed && !f.delayFree then (f, file, true)
    else
      var g := if f.flushDue then Flush(f).(flushDue := false) else f;
      if g.offset > 0 && timedOut && g.disk.Null? then (g.(flushDue := true), file, false)
      else if g.disk.Null? || g.dlen < 1 then (g, file, false)
      else
        var h, written := Finish(Claim(g)), file + g.PendingBytes();
        if !h.delayFree then (h, written, false)
        else if h.offset > 0 then (SecondPass(h), written, false)
        else (h, written, true)
  }

  // What one undisturbed pass2write makes of the session.
  ghost function PassResult(f: Fields, b: seq<octet>, steady: bool, memory: bool): Fields
    requires f.Sized() && f.memLen >= 2 * NET_READ_BUF && |b| <= NET_READ_BUF
    requires f.disk.At? ==> f.offset + NET_READ_BUF <= f.memLen
  {
    if !f.Full(|b|) then Append(f, b)
    else if f.disk.At? then
      if CanEnlarge(f, |b|, steady, memory) then
        Append(Enlarge(f, EnlargedLen(f, |b|)), b)
      else Append(f.(stuck := true), b)
    else if f.inProgress then f
    else Append(Swap(f.(flushDue := false)), b)
  }

  // What that is in each case. A closed session with nothing left is freed.
  lemma VisitOfClosed(f: Fields, file: seq<octet>, timedOut: bool)
    requires f.Sized() && !f.inProgress && f.closed && !f.delayFree
    ensures VisitResult(f, file, timedOut) == (f, file, true)
  {
  }

  // A buffer waiting is written; then the rest of the current half is queued, or the session freed, if
  // it has been closed with data.
  lemma VisitWrites(f: Fields, file: seq<octet>, timedOut: bool)
    requires f.Sized() && !f.inProgress && (f.closed ==> f.delayFree) && f.disk.At? && f.dlen > 0
    ensures var (g, file', freed) := VisitResult(f, file, timedOut);
            && file' == file + f.PendingBytes() && !g.flushDue && !g.stuck && !g.inProgress && g.cur == f.cur
            && (freed <==> f.delayFree && f.offset == 0)
            && if f.delayFree && f.offset > 0 then g.disk == At(f.cur) && g.dlen == f.offset && g.offset == 0
               else g.disk == Null && g.dlen == 0 && g.offset == f.offset
  {
  }

  // The flag brings the current half to the file, and goes up when the interval has expired.
  lemma VisitFlushes(f: Fields, file: seq<octet>, timedOut: bool)
    requires f.Sized() && !f.inProgress && !f.closed && !f.delayFree && f.disk.Null?
    ensures var (g, file', freed) := VisitResult(f, file, timedOut);
            && !freed
            && (f.flushDue && f.offset > 0 ==>
                  file' == file + f.CurBytes() && !g.flushDue && g.disk == Null && g.offset == 0 && g.cur == f.cur.Other())
            && (f.flushDue && f.offset == 0 ==> file' == file && g.disk == At(f.cur) && g.dlen == 0 && !g.flushDue)
            && (!f.flushDue ==> file' == file && g == f.(flushDue := f.offset > 0 && timedOut))
  {
  }

  // An empty buffer is left waiting.
  lemma VisitSkips(f: Fields, file: seq<octet>, timedOut: bool)
    requires f.Sized() && !f.inProgress && (f.closed ==> f.delayFree) && f.disk.At? && f.dlen == 0
    ensures VisitResult(f, file, timedOut) == (f.(flushDue := false), file, false)
  {
  }

  // What an undisturbed pass2write does in each case. There is room for the data and one more read:
  // it is appended and nothing else changes.
  lemma PassAppends(f: Fields, b: seq<octet>, steady: bool, memory: bool)
    requires PassReady(f, b) && f.offset + |b| + 4096 <= f.memLen
    ensures var g := PassResult(f, b, steady, memory);
            && Alike(f, g) && g.CurBytes() == f.CurBytes() + b && g.PendingBytes() == f.PendingBytes()
            && g.cur == f.cur && g.disk == f.disk && g.memLen == f.memLen
            && g.stuck == f.stuck && g.flushDue == f.flushDue
  {
    AppendBytes(f, b);
  }

  // A buffer is waiting: the session is enlarged if it can be, and marked stuck otherwise.
  lemma PassEnlarges(f: Fields, b: seq<octet>, steady: bool, memory: bool)
    requires PassReady(f, b) && f.offset + |b| + 4096 > f.memLen && f.disk.At?
    ensures var g, want := PassResult(f, b, steady, memory), f.offset + |b| + 4096;
            && Alike(f, g) && g.CurBytes() == f.CurBytes() + b && g.PendingBytes() == f.PendingBytes()
            && g.disk.At? && g.flushDue == f.flushDue
            && if steady && memory && GrowsWithinLimit(f.memLen, want)
               then LeastGrown(f.memLen, want, g.memLen) && g.stuck == f.stuck
               else g.memLen == f.memLen && g.stuck && g.cur == f.cur && g.disk == f.disk
  {
    hide Enlarge, LeastGrown, GrowsWithinLimit, Append, EnlargedLen;
    var n := EnlargedLen(f, |b|);
    EnlargedLenIsLeast(f, |b|);
    GrownIsMore(f.memLen, f.offset + |b| + 4096, n);
    if CanEnlarge(f, |b|, steady, memory) {
      EnlargeFields(f, n);
      EnlargeBytes(f, n);
      AppendBytes(Enlarge(f, n), b);
      AppendFields(Enlarge(f, n), b);
    } else {
      AppendBytes(f.(stuck := true), b);
      AppendFields(f.(stuck := true), b);
    }
  }

  // Nothing is waiting: the current half is handed over and the other one begun, unless a write is in
  // progress, for which the thread has to wait.
  lemma PassHandsOver(f: Fields, b: seq<octet>, steady: bool, memory: bool)
    requires PassReady(f, b) && f.offset + |b| + 4096 > f.memLen && f.disk.Null?
    ensures var g := PassResult(f, b, steady, memory);
            if f.inProgress then g == f
            else && Alike(f, g) && g.CurBytes() == b && g.PendingBytes() == f.CurBytes() && g.disk == At(f.cur)
                 && g.cur == f.cur.Other() && g.memLen == f.memLen && g.stuck == f.stuck && !g.flushDue
  {
    if !f.inProgress {
      var g := Swap(f.(flushDue := false));
      assert g.CurBytes() == [] && g.PendingBytes() == f.CurBytes();
      AppendBytes(g, b);
    }
  }

  ghost predicate PassReady(f: Fields, b: seq<octet>) {
    && f.Sized() && f.memLen >= 2 * NET_READ_BUF && |b| <= NET_READ_BUF
    && (f.disk.At? ==> f.offset + NET_READ_BUF <= f.memLen && f.disk != At(f.cur))
  }

  // What no pass2write changes.
  ghost predicate Alike(f: Fields, g: Fields) {
    g.Sized() && g.inProgress == f.inProgress && g.delayFree == f.delayFree && g.closed == f.closed
  }

  lemma GrownIsMore(len: nat, want: nat, n: nat)
    requires LeastGrown(len, want, n)
    ensures n > len && n >= want
  {
  }

  lemma AppendFields(f: Fields, b: seq<octet>)
    requires f.Sized() && f.offset + |b| <= f.memLen
    ensures var g := Append(f, b);
            && g.memLen == f.memLen && g.cur == f.cur && g.disk == f.disk && g.dlen == f.dlen
            && g.inProgress == f.inProgress && g.stuck == f.stuck && g.flushDue == f.flushDue
            && g.delayFree == f.delayFree && g.closed == f.closed
  {
  }

  lemma EnlargeFields(f: Fields, n: nat)
    requires f.Sized() && f.disk.At? && f.memLen <= n
    ensures var g := Enlarge(f, n);
            && g.memLen == n && g.cur == Buf1 && g.disk == At(Buf2) && g.offset == f.offset && g.dlen == f.dlen
            && g.inProgress == f.inProgress && g.stuck == f.stuck && g.flushDue == f.flushDue
            && g.delayFree == f.delayFree && g.closed == f.closed
  {
  }
}
