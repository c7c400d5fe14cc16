// Concrete runs of the log collector in which the guards of LogProtocol fail: the losses
// described in LogRuns can happen.
module LogHazards {
  import opened LogSession
  import opened Octets
  import opened LogProtocol
  import opened LogRuns

  ghost predicate Reachable(s: State) {
    exists steps: seq<Step> :: Run(Init(), steps) == Next(s)
  }

  lemma {:induction false} RunExtends(s: State, steps: seq<Step>, step: Step)
    requires Run(s, steps).Next? && Runnable(Run(s, steps).s)
    ensures Run(s, steps + [step]) == Apply(Run(s, steps).s, step)
    decreases |steps|
  {
    hide Apply;
    if steps == [] {
      assert [step][0] == step && [step][1..] == [];
    } else {
      var s' := Apply(s, steps[0]).s;
      assert (steps + [step])[0] == steps[0] && (steps + [step])[1..] == steps[1..] + [step];
      RunExtends(s', steps[1..], step);
    }
  }

  // The state after a guarded step, still within the invariant.
  lemma Advance(s: State, step: Step) returns (t: State)
    requires Reachable(s) && Inv(s) && Guarded(s, step) && Apply(s, step).Next?
    ensures Reachable(t) && Inv(t) && Apply(s, step) == Next(t)
  {
    var steps :| Run(Init(), steps) == Next(s);
    RunExtends(Init(), steps, step);
    StepPreserves(s, step);
    t := Apply(s, step).s;
    assert Run(Init(), steps + [step]) == Next(t);
  }

  // An open session between visits with nothing handed over and no flags up.
  ghost predicate Calm(s: State, offset: nat) {
    var f := s.f;
    && Reachable(s) && Inv(s) && s.net.Waiting? && s.disk.Idle?
    && f.offset == offset && f.memLen == DEFAULT_DATA_BLOCK_SIZE
    && f.disk.Null? && !f.inProgress && !f.stuck && !f.flushDue && !f.closed && !f.delayFree
  }

  lemma StartCalm()
    ensures Calm(Init(), 0)
  {
    InitInv();
    assert Run(Init(), []) == Next(Init());
  }

  function Zeros(n: nat): seq<octet> { seq(n, _ => 0) }

  lemma StoreCalmly(s: State, n: nat) returns (t: State)
    requires Calm(s, s.f.offset) && 1 <= n <= NET_READ_BUF && s.f.offset + n + NET_READ_BUF <= DEFAULT_DATA_BLOCK_SIZE
    ensures Calm(t, s.f.offset + n)
  {
    t := Advance(s, Receive(Zeros(n)));
    t := Advance(t, Recheck);
  }

  lemma FillUp(n: nat) returns (t: State)
    requires n <= 15
    ensures Calm(t, n * NET_READ_BUF)
  {
    if n == 0 {
      StartCalm();
      t := Init();
    } else {
      t := FillUp(n - 1);
      t := StoreCalmly(t, NET_READ_BUF);
    }
  }

  // One visit in which the flush interval has expired raises the flag.
  lemma RaiseFlag(s: State) returns (t: State)
    requires Calm(s, s.f.offset) && s.f.offset > 0
    ensures Reachable(t) && Inv(t) && t == s.(f := s.f.(flushDue := true))
  {
    t := Advance(s, Disk(true));
    t := Advance(t, Disk(true));
    t := Advance(t, Disk(true));
    t := Advance(t, Disk(true));
  }

  // The next visit, up to the claim; the network thread stands still wherever it is.
  lemma VisitToClaim(s: State) returns (t: State)
    requires Reachable(s) && Inv(s) && s.disk.Idle? && s.f.flushDue && !s.f.closed && s.f.disk.Null? && s.f.offset > 0
    ensures Reachable(t) && Inv(t) && t.disk.Claimed? && t.net == s.net
    ensures t.f.offset == 0 && t.f.disk.Null? && t.f.inProgress && !t.f.closed && t.f.stuck == s.f.stuck
    ensures t.f.memLen == s.f.memLen
  {
    t := Advance(s, Disk(false));
    t := Advance(t, Disk(false));
    t := Advance(t, Disk(false));
    t := Advance(t, Disk(false));
    t := Advance(t, Disk(false));
    t := Advance(t, Disk(false));
    t := Advance(t, Disk(false));
  }

  // The fullness test goes stale while a whole flush and write run; the lock section then hands
  // over an empty buffer, which the disk thread reports as a bug and never takes.
  lemma StaleLockReachable() returns (t: State)
    ensures Reachable(t) && Wedged(t) && t.f.disk.At? && t.f.dlen == 0
  {
    var s := FillUp(15);
    s := RaiseFlag(s);
    s := Advance(s, Receive(Zeros(NET_READ_BUF)));
    s := Advance(s, Recheck);
    assert s.net.SawFull?;
    s := VisitToClaim(s);
    s := Advance(s, Disk(false));
    s := Advance(s, Disk(false));
    StaleLockWedges(s, false, false);
    var steps :| Run(Init(), steps) == Next(s);
    RunExtends(Init(), steps, Lock(false, false));
    t := Apply(s, Lock(false, false)).s;
    assert Run(Init(), steps + [Lock(false, false)]) == Next(t);
  }

  // A byte that arrives while the previous one is being written, followed by a close, is lost:
  // the session is freed with a file that is not what was received.
  lemma CloseInsideWriteLoses(choices: seq<bool>) returns (s: State)
    requires |choices| >= 114
    ensures Reachable(s) && Inv(s) && Apply(s, Close).Next? && Teardown(Apply(s, Close).s)
    ensures var t := DiskRun(Apply(s, Close).s, choices); t.disk.Gone? && t.file != s.received
  {
    StartCalm();
    s := StoreCalmly(Init(), 1);
    s := RaiseFlag(s);
    s := VisitToClaim(s);
    s := Advance(s, Receive(Zeros(1)));
    s := Advance(s, Recheck);
    CloseDrainsIff(s, choices);
  }

  // An open session that is neither stuck nor has a buffer handed over; the disk thread is anywhere.
  ghost predicate Filling(s: State, offset: nat) {
    var f := s.f;
    && Reachable(s) && Inv(s) && s.net.Waiting? && f.offset == offset && f.memLen == DEFAULT_DATA_BLOCK_SIZE
    && f.disk.Null? && !f.stuck && !f.closed && !s.disk.Gone?
  }

  lemma FillOne(s: State) returns (t: State)
    requires Filling(s, s.f.offset) && s.f.offset + 2 * NET_READ_BUF <= DEFAULT_DATA_BLOCK_SIZE
    ensures Filling(t, s.f.offset + NET_READ_BUF) && t.disk == s.disk && t.f.inProgress == s.f.inProgress
    ensures t.f.flushDue == s.f.flushDue
  {
    t := Advance(s, Receive(Zeros(NET_READ_BUF)));
    t := Advance(t, Recheck);
  }

  lemma FillMore(s: State, n: nat) returns (t: State)
    requires Filling(s, s.f.offset) && s.f.offset + (n + 1) * NET_READ_BUF <= DEFAULT_DATA_BLOCK_SIZE
    ensures Filling(t, s.f.offset + n * NET_READ_BUF) && t.disk == s.disk && t.f.inProgress == s.f.inProgress
    ensures t.f.flushDue == s.f.flushDue
    decreases n
  {
    if n == 0 {
      t := s;
    } else {
      t := FillMore(s, n - 1);
      t := FillOne(t);
    }
  }

  // The network thread fills the buffer during a write and has to spin.
  lemma SpinDuringWrite() returns (s: State)
    ensures Reachable(s) && Inv(s) && s.net.Spinning? && s.disk.Claimed? && s.f.offset > 0
    ensures s.f.disk.Null? && !s.f.closed && !s.f.delayFree && !s.f.flushDue
  {
    StartCalm();
    s := StoreCalmly(Init(), 1);
    s := RaiseFlag(s);
    s := VisitToClaim(s);
    s := FillMore(s, 15);
    s := Advance(s, Receive(Zeros(NET_READ_BUF)));
    s := Advance(s, Recheck);
    s := Advance(s, Lock(false, false));
  }

  // When the write ends the network thread leaves the spin, and is then overtaken by two visits of
  // the disk thread that hand the buffer over for a timeout.
  lemma BlindResumeReachable() returns (s: State)
    ensures Reachable(s) && Inv(s) && s.net.Resuming? && s.f.disk.At? && !Guarded(s, Resume)
  {
    s := SpinDuringWrite();
    s := Advance(s, Disk(false));
    s := Advance(s, Disk(false));
    s := Advance(s, Disk(false));
    s := Advance(s, SpinOver);
    s := FlushInTwoVisits(s);
  }

  lemma FlushInTwoVisits(s: State) returns (t: State)
    requires Reachable(s) && Inv(s) && s.disk.Idle? && !s.f.flushDue && !s.f.closed && s.f.disk.Null? && s.f.offset > 0
    ensures Reachable(t) && Inv(t) && t.net == s.net && t.f.disk.At? && !t.f.closed
  {
    t := Advance(s, Disk(true));
    t := Advance(t, Disk(true));
    t := Advance(t, Disk(true));
    t := Advance(t, Disk(true));
    t := Advance(t, Disk(false));
    t := Advance(t, Disk(false));
    t := Advance(t, Disk(false));
  }
}
