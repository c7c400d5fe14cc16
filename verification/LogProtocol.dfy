// The two-thread protocol of the log collector (logCollectSrv.c, and the same code in
// logServer.c) as a transition system: one session, its network thread and the disk thread.
// A step is one lock-protected section, one unlocked test of shared fields, or one append.
module LogProtocol {
  import opened LogSession
  import opened Octets

  // Where the network thread is; b is the data it has read and not yet stored.
  datatype NetPc =
    | Waiting                     // in epoll_wait / drain_client
    | Have(b: seq<octet>)          // in pass2write, at recheck
    | SawFull(b: seq<octet>)       // found the buffer full, about to take the lock
    | Spinning(b: seq<octet>)      // released the lock to wait for a write in progress
    | Resuming(b: seq<octet>)      // saw the write end, about to take the lock again
  {
    function InHand(): seq<octet> { if Waiting? then [] else b }
  }

  // Where the disk thread is within its visit to the session.
  datatype DiskPc =
    | Idle | Entered | Flushing | Unflagging | Flushed | Arming | Checked | Ready
    | Claimed(buf: Half, len: nat) | Written | Finished | Gone

  datatype State = State(f: Fields, net: NetPc, disk: DiskPc, file: seq<octet>, received: seq<octet>)

  datatype Step =
    | Receive(b: seq<octet>)                 // drain_client reads b
    | Recheck                               // the unlocked fullness test; the append if it fits
    | Lock(steady: bool, memory: bool)      // the lock section after the test
    | SpinOver
    | Resume
    | Close                                 // free_session_step1 and free_session_step2
    | Disk(timedOut: bool)                  // the disk thread's next step

  datatype Outcome = Next(s: State) | Disabled | Overrun

  function Init(): State {
    State(NewSession(), Waiting, Idle, [], [])
  }

  // Store b in the current half and go back to waiting; a store past its end is an overrun.
  function Store(s: State, f: Fields, b: seq<octet>): Outcome
    requires f.Sized()
  {
    if f.offset + |b| > f.memLen then Overrun
    else Next(s.(f := Append(f, b), net := Waiting))
  }

  function DiskStep(s: State, timedOut: bool): State
    requires s.f.Sized() && !s.disk.Gone?
    requires s.disk.Claimed? ==> s.disk.len <= s.f.memLen
  {
    var f := s.f;
    match s.disk
    case Idle => s.(disk := if f.closed && !f.delayFree then Gone else Entered)
    case Entered => s.(disk := if f.flushDue then Flushing else Flushed)
    case Flushing => s.(f := Flush(f), disk := Unflagging)
    case Unflagging => s.(f := f.(flushDue := false), disk := Flushed)
    case Flushed =>
      s.(disk := if f.offset > 0 && timedOut && !f.flushDue && f.disk.Null? && !f.inProgress then Arming else Checked)
    case Arming => s.(f := f.(flushDue := true), disk := Idle)
    case Checked => s.(disk := if f.disk.Null? || f.dlen < 1 then Idle else Ready)
    case Ready =>
      if f.inProgress || f.disk.Null? then s.(disk := Finished)
      else s.(f := Claim(f), disk := Claimed(f.disk.half, f.dlen))
    case Claimed(buf, len) => s.(file := s.file + f.Mem(buf)[..len], disk := Written)
    case Written => s.(f := Finish(f), disk := Finished)
    case Finished =>
      if !f.delayFree then s.(disk := Idle)
      else if f.offset > 0 then s.(f := SecondPass(f), disk := Idle)
      else s.(disk := Gone)
  }

  function Apply(s: State, step: Step): Outcome
    requires s.f.Sized() && (s.disk.Claimed? ==> s.disk.len <= s.f.memLen)
  {
    var f := s.f;
    match step
    case Receive(b) =>
      if s.net.Waiting? && !f.closed && !f.stuck && 1 <= |b| <= NET_READ_BUF
      then Next(s.(net := Have(b), received := s.received + b))
      else Disabled
    case Recheck =>
      if !s.net.Have? then Disabled
      else if f.Full(|s.net.b|) then Next(s.(net := SawFull(s.net.b)))
      else Store(s, f, s.net.b)
    case Lock(steady, memory) =>
      if !s.net.SawFull? then Disabled
      else if f.disk.At? then
        if CanEnlarge(f, |s.net.b|, steady, memory)
        then Next(s.(f := Enlarge(f, EnlargedLen(f, |s.net.b|)), net := Have(s.net.b)))
        else Store(s, f.(stuck := true), s.net.b)
      else if f.inProgress then Next(s.(net := Spinning(s.net.b)))
      else Store(s, Swap(f.(flushDue := false)), s.net.b)
    case SpinOver =>
      if s.net.Spinning? && !f.inProgress then Next(s.(net := Resuming(s.net.b))) else Disabled
    case Resume =>
      if s.net.Resuming? then Store(s, Swap(f.(flushDue := false)), s.net.b) else Disabled
    case Close =>
      if s.net.Waiting? && !f.closed && !s.disk.Gone? then Next(s.(f := CloseSession(f))) else Disabled
    case Disk(timedOut) =>
      if s.disk.Gone? then Disabled else Next(DiskStep(s, timedOut))
  }

  // The disk thread is past the point of claiming a buffer in this visit.
  predicate PastClaim(d: DiskPc) { d.Claimed? || d.Written? || d.Finished? }

  // What the code takes for granted at the three places where it does not look again: a buffer
  // found full is still not empty under the lock; nothing was handed over while the thread went
  // from the spin to the lock; and a session with data is not closed inside a disk write.
  predicate Guarded(s: State, step: Step) {
    match step
    case Lock(_, _) => s.net.SawFull? && s.f.disk.Null? && !s.f.inProgress ==> s.f.offset > 0
    case Resume => s.f.disk.Null? && !s.f.inProgress && s.f.offset > 0
    case Close => s.f.offset == 0 || !PastClaim(s.disk)
    case _ => true
  }

  // Every byte received is in the file, claimed, pending, current or in hand, in that order.
  ghost predicate Conserved(s: State)
    requires s.f.Sized()
  {
    s.received == s.file + ClaimedBytes(s) + s.f.PendingBytes() + s.f.CurBytes() + s.net.InHand()
  }

  function ClaimedBytes(s: State): seq<octet>
    requires s.f.Sized()
  {
    if s.disk.Claimed? && s.disk.len <= s.f.memLen then s.f.Mem(s.disk.buf)[..s.disk.len] else []
  }

  // A pending buffer and a write in progress exclude each other; on an open session the
  // current half is the one that is neither pending nor being written.
  ghost predicate HalvesApart(s: State) {
    var f := s.f;
    && (f.inProgress <==> s.disk.Claimed? || s.disk.Written?)
    && (f.inProgress ==> f.disk.Null?)
    && (f.disk.At? ==> f.dlen > 0)
    && (s.disk.Claimed? ==> 0 < s.disk.len <= f.memLen)
    && (!f.closed ==> f.disk != At(f.cur) && (s.disk.Claimed? ==> s.disk.buf != f.cur))
  }

  // There is room for what may still be stored, and a stuck session has a write coming.
  ghost predicate Roomy(s: State) {
    var f := s.f;
    && f.memLen >= DEFAULT_DATA_BLOCK_SIZE
    && (f.closed || f.stuck || f.disk.Null? || f.offset + NET_READ_BUF <= f.memLen)
    && (f.stuck ==> f.disk.At? || f.inProgress)
    && (!s.net.Waiting? ==> 1 <= |s.net.b| <= NET_READ_BUF && !f.closed && !f.stuck)
  }

  // The flush flag is only up while there is something to flush, and never past the flush.
  ghost predicate FlagOk(s: State) {
    var f := s.f;
    && (f.flushDue || s.disk.Flushing? || s.disk.Arming? ==> f.offset > 0 || f.disk.At?)
    && (s.disk.Flushed? || s.disk.Arming? || s.disk.Checked? || s.disk.Ready? || PastClaim(s.disk) ==> !f.flushDue)
    && (s.disk.Ready? ==> f.disk.At?)
    && (f.disk.At? && f.offset == 0 && !f.delayFree ==>
          s.disk.Unflagging? || s.disk.Flushed? || s.disk.Checked? || s.disk.Ready?)
  }

  // How far the teardown of a closed session has come.
  ghost predicate TeardownOk(s: State) {
    var f := s.f;
    && (f.delayFree ==> f.closed)
    && (f.closed && !f.delayFree ==> f.offset == 0)
    && (f.closed && PastClaim(s.disk) ==> f.disk.Null?)
    && (f.delayFree && !PastClaim(s.disk) && !s.disk.Gone? ==> f.disk.At?)
    && (s.disk.Gone? ==> f.closed && f.disk.Null? && f.offset == 0)
  }

  ghost predicate Inv(s: State) {
    s.f.Sized() && HalvesApart(s) && Roomy(s) && FlagOk(s) && TeardownOk(s) && Conserved(s)
  }

  lemma InitInv()
    ensures Inv(Init())
  {
  }

  lemma StorePreserves(s: State, f: Fields, b: seq<octet>)
    requires f.Sized() && f.offset + |b| <= f.memLen && f.disk != At(f.cur) && 1 <= |b| <= NET_READ_BUF
    requires !f.closed && !f.delayFree && f.memLen >= DEFAULT_DATA_BLOCK_SIZE
    requires f.stuck || f.disk.Null? || f.offset + |b| + NET_READ_BUF <= f.memLen
    requires f.stuck ==> f.disk.At? || f.inProgress
    requires HalvesApart(s.(f := f)) && (s.disk.Ready? ==> f.disk.At?)
    requires s.disk.Flushed? || s.disk.Arming? || s.disk.Checked? || s.disk.Ready? || PastClaim(s.disk) ==> !f.flushDue
    requires !s.disk.Gone?
    requires s.received == s.file + ClaimedBytes(s.(f := f)) + f.PendingBytes() + f.CurBytes() + b
    ensures Store(s, f, b).Next? && Inv(Store(s, f, b).s)
  {
    AppendBytes(f, b);
    var s' := Store(s, f, b).s;
    assert ClaimedBytes(s') == ClaimedBytes(s.(f := f));
    assert s'.received == s'.file + ClaimedBytes(s') + s'.f.PendingBytes() + (f.CurBytes() + b) + [];
  }

  lemma NetworkPreserves(s: State, step: Step)
    requires Inv(s) && Guarded(s, step) && !step.Disk? && !step.Close? && !step.Lock? && !step.Resume?
    ensures Apply(s, step) != Overrun
    ensures Apply(s, step).Next? ==> Inv(Apply(s, step).s)
  {
    match step
    case Receive(b) =>
    case Recheck =>
      if s.net.Have? && !s.f.Full(|s.net.b|) {
        StorePreserves(s, s.f, s.net.b);
      }
    case SpinOver =>
  }

  // The spin ends only when the write it waited for has.
  lemma SpinEndsTheWrite(s: State)
    requires Inv(s) && Apply(s, SpinOver).Next?
    ensures s.net.Spinning? && !s.disk.Claimed? && !s.disk.Written?
    ensures Apply(s, SpinOver).s == s.(net := Resuming(s.net.b))
  {
  }

  lemma LockPreserves(s: State, steady: bool, memory: bool)
    requires Inv(s) && Guarded(s, Lock(steady, memory)) && s.net.SawFull?
    ensures Apply(s, Lock(steady, memory)).Next?
    ensures Inv(Apply(s, Lock(steady, memory)).s)
  {
    var f, b := s.f, s.net.b;
    if f.disk.At? {
      if CanEnlarge(f, |b|, steady, memory) {
        EnlargeBytes(f, EnlargedLen(f, |b|));
      } else {
        StorePreserves(s, f.(stuck := true), b);
      }
    } else if !f.inProgress {
      SwapPreserves(s);
    }
  }

  lemma SwapPreserves(s: State)
    requires Inv(s) && !s.net.Waiting? && s.f.disk.Null? && !s.f.inProgress && s.f.offset > 0
    ensures var o := Store(s, Swap(s.f.(flushDue := false)), s.net.b); o.Next? && Inv(o.s)
  {
    var g := Swap(s.f.(flushDue := false));
    assert g.PendingBytes() == s.f.CurBytes() && g.CurBytes() == [];
    StorePreserves(s, g, s.net.b);
  }

  lemma ClosePreserves(s: State)
    requires Inv(s) && s.net.Waiting? && !s.f.closed && Guarded(s, Close)
    ensures Inv(s.(f := CloseSession(s.f)))
  {
  }

  // The disk thread's steps that move no bytes.
  lemma QuietPreserves(s: State, timedOut: bool)
    requires Inv(s) && !s.disk.Gone?
    requires !s.disk.Flushing? && !s.disk.Ready? && !PastClaim(s.disk)
    ensures Inv(DiskStep(s, timedOut))
  {
    var s' := DiskStep(s, timedOut);
    assert s'.f.PendingBytes() == s.f.PendingBytes() && s'.f.CurBytes() == s.f.CurBytes();
    assert Conserved(s');
  }

  lemma FlushPreserves(s: State, timedOut: bool)
    requires Inv(s) && s.disk.Flushing?
    ensures Inv(DiskStep(s, timedOut))
  {
    if s.f.disk.Null? && !s.f.inProgress {
      var g := Swap(s.f);
      assert g.PendingBytes() == s.f.CurBytes() && g.CurBytes() == [];
    }
  }

  lemma ClaimPreserves(s: State, timedOut: bool)
    requires Inv(s) && s.disk.Ready?
    ensures Inv(DiskStep(s, timedOut))
  {
    var s' := DiskStep(s, timedOut);
    assert ClaimedBytes(s') == s.f.PendingBytes() && s'.f.PendingBytes() == [];
    assert Conserved(s');
  }

  lemma WritePreserves(s: State, timedOut: bool)
    requires Inv(s) && (s.disk.Claimed? || s.disk.Written?)
    ensures Inv(DiskStep(s, timedOut))
  {
    var s' := DiskStep(s, timedOut);
    assert s'.f.PendingBytes() == s.f.PendingBytes() == [] && s'.f.CurBytes() == s.f.CurBytes();
    assert Conserved(s');
  }

  lemma DepartPreserves(s: State, timedOut: bool)
    requires Inv(s) && s.disk.Finished?
    ensures Inv(DiskStep(s, timedOut))
  {
    if s.f.delayFree && s.f.offset > 0 {
      var g := SecondPass(s.f);
      assert g.PendingBytes() == s.f.CurBytes() && g.CurBytes() == [];
    }
  }

  lemma DiskPreserves(s: State, timedOut: bool)
    requires Inv(s) && !s.disk.Gone?
    ensures Inv(DiskStep(s, timedOut))
  {
    match s.disk
    case Flushing => FlushPreserves(s, timedOut);
    case Ready => ClaimPreserves(s, timedOut);
    case Claimed(_, _) => WritePreserves(s, timedOut);
    case Written => WritePreserves(s, timedOut);
    case Finished => DepartPreserves(s, timedOut);
    case _ => QuietPreserves(s, timedOut);
  }

  // Every guarded step of either thread keeps the invariant and stays inside the buffer.
  lemma StepPreserves(s: State, step: Step)
    requires Inv(s) && Guarded(s, step)
    ensures Apply(s, step) != Overrun
    ensures Apply(s, step).Next? ==> Inv(Apply(s, step).s)
  {
    match step
    case Lock(steady, memory) => if s.net.SawFull? { LockPreserves(s, steady, memory); }
    case Resume => if s.net.Resuming? { SwapPreserves(s); }
    case Close => if s.net.Waiting? && !s.f.closed { ClosePreserves(s); }
    case Disk(timedOut) => if !s.disk.Gone? { DiskPreserves(s, timedOut); }
    case _ => NetworkPreserves(s, step);
  }
}
