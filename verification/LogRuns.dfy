// Whole runs of the log collector protocol: what every guarded run keeps, that back-pressure
// and teardown come to an end, and that the guards of LogProtocol are exactly what is needed.
module LogRuns {
  import opened LogSession
  import opened LogProtocol

  ghost predicate Runnable(s: State) {
    s.f.Sized() && (s.disk.Claimed? ==> s.disk.len <= s.f.memLen)
  }

  ghost function Run(s: State, steps: seq<Step>): Outcome
    decreases |steps|
  {
    if steps == [] then Next(s)
    else if !Runnable(s) then Disabled
    else
      match Apply(s, steps[0])
      case Next(s') => Run(s', steps[1..])
      case o => o
  }

  // Every step of the run finds what it takes for granted.
  ghost predicate GuardedRun(s: State, steps: seq<Step>)
    decreases |steps|
  {
    steps == [] || !Runnable(s) ||
    (Guarded(s, steps[0]) && (Apply(s, steps[0]).Next? ==> GuardedRun(Apply(s, steps[0]).s, steps[1..])))
  }

  lemma {:induction false} RunInv(s: State, steps: seq<Step>)
    requires Inv(s) && GuardedRun(s, steps)
    ensures Run(s, steps) != Overrun
    ensures Run(s, steps).Next? ==> Inv(Run(s, steps).s)
    decreases |steps|
  {
    hide Inv, Apply, Guarded;
    if steps != [] {
      InvRunnable(s);
      StepPreserves(s, steps[0]);
      if Apply(s, steps[0]).Next? {
        RunInv(Apply(s, steps[0]).s, steps[1..]);
      }
    }
  }

  lemma InvRunnable(s: State)
    requires Inv(s)
    ensures Runnable(s)
  {
  }

  // In every state a guarded run reaches, no store has left the buffer, the file followed by the
  // claimed, pending and current bytes and the data in hand is exactly what was received, no empty
  // buffer is ever handed to the disk thread, and a pending buffer excludes a write in progress.
  lemma ReachableStates(steps: seq<Step>)
    requires GuardedRun(Init(), steps)
    ensures Run(Init(), steps) != Overrun
    ensures Run(Init(), steps).Next? ==>
              var t := Run(Init(), steps).s;
              && t.f.Sized() && Conserved(t)
              && (t.f.disk.At? ==> t.f.dlen > 0 && !t.f.inProgress)
              && (t.f.stuck ==> t.f.disk.At? || t.f.inProgress)
              && (!t.f.closed ==> t.f.disk != At(t.f.cur) && (t.disk.Claimed? ==> t.disk.buf != t.f.cur))
  {
    InitInv();
    RunInv(Init(), steps);
  }

  // A session is freed only after everything received has reached the file, in order.
  lemma FreedMeansWritten(steps: seq<Step>)
    requires GuardedRun(Init(), steps) && Run(Init(), steps).Next?
    ensures var t := Run(Init(), steps).s; t.disk.Gone? ==> t.file == t.received
  {
    InitInv();
    RunInv(Init(), steps);
    var t := Run(Init(), steps).s;
    if t.disk.Gone? {
      assert t.file + [] + [] + [] + [] == t.file;
    }
  }

  // Enlarging happens with no write in progress, so the disk thread holds no pointer into the old
  // block; both halves keep their bytes and the append that follows finds room.
  lemma EnlargeIsSafe(s: State, steady: bool, memory: bool)
    requires Inv(s) && s.net.SawFull? && s.f.disk.At? && CanEnlarge(s.f, |s.net.b|, steady, memory)
    ensures !s.f.inProgress && !s.disk.Claimed?
    ensures var o := Apply(s, Lock(steady, memory));
            && o.Next? && o.s.net == Have(s.net.b) && !o.s.f.Full(|s.net.b|)
            && o.s.f.CurBytes() == s.f.CurBytes() && o.s.f.PendingBytes() == s.f.PendingBytes()
  {
    EnlargeBytes(s.f, EnlargedLen(s.f, |s.net.b|));
  }

  // What Session.Pass2Write does in one go is what the network thread's steps do when the disk
  // thread makes none in between.
  lemma PassIsSteps(s: State, steady: bool, memory: bool)
    requires Inv(s) && s.net.Have?
    ensures var r := PassResult(s.f, s.net.b, steady, memory);
            var lock := Lock(steady, memory);
            if !s.f.Full(|s.net.b|) then
              Run(s, [Recheck]) == Next(s.(f := r, net := Waiting))
            else if s.f.disk.At? && CanEnlarge(s.f, |s.net.b|, steady, memory) then
              Run(s, [Recheck, lock, Recheck]) == Next(s.(f := r, net := Waiting))
            else if s.f.disk.Null? && s.f.inProgress then
              Run(s, [Recheck, lock]) == Next(s.(f := r, net := Spinning(s.net.b)))
            else
              Run(s, [Recheck, lock]) == Next(s.(f := r, net := Waiting))
  {
    var lock := Lock(steady, memory);
    if !s.f.Full(|s.net.b|) {
      RunOne(s, Recheck);
    } else {
      var t := s.(net := SawFull(s.net.b));
      assert Apply(s, Recheck) == Next(t);
      InvRunnable(s);
      StepPreserves(s, Recheck);
      StepPreserves(t, lock);
      assert [Recheck, lock][1..] == [lock];
      RunOne(t, lock);
      if s.f.disk.At? && CanEnlarge(s.f, |s.net.b|, steady, memory) {
        EnlargeIsSafe(t, steady, memory);
        var u := Apply(t, lock).s;
        assert [Recheck, lock, Recheck][1..] == [lock, Recheck] && [lock, Recheck][1..] == [Recheck];
        InvRunnable(t);
        InvRunnable(u);
        RunOne(u, Recheck);
      }
    }
  }

  lemma RunOne(s: State, step: Step)
    requires Runnable(s)
    ensures Run(s, [step]) == Apply(s, step)
  {
    assert [step][1..] == [];
  }

  // A visit by the disk thread's own steps: at most ten from Idle until it is Idle again or the
  // session is gone.
  ghost function VisitSteps(s: State, timedOut: bool, n: nat): State
    decreases n
  {
    if n == 0 || !Runnable(s) || s.disk.Gone? then s
    else
      var t := DiskStep(s, timedOut);
      if t.disk.Idle? then t else VisitSteps(t, timedOut, n - 1)
  }

  // What Session.DiskVisit does in one go is what those steps do when the network thread makes none
  // in between.
  lemma VisitIsSteps(s: State, timedOut: bool)
    requires Inv(s) && s.disk.Idle?
    ensures var (f, file, freed) := VisitResult(s.f, s.file, timedOut);
            VisitSteps(s, timedOut, 10) == s.(f := f, file := file, disk := if freed then Gone else Idle)
  {
    hide Claim, Finish, SecondPass, Conserved, FlagOk, TeardownOk, Roomy;
    var t := DiskStep(s, timedOut);
    if t.disk.Entered? {
      var u := DiskStep(t, timedOut);
      if u.disk.Flushing? {
        var v := DiskStep(DiskStep(u, timedOut), timedOut);
        FromFlushed(v, timedOut, 6);
      } else {
        FromFlushed(u, timedOut, 8);
      }
    }
  }

  lemma FromFlushed(s: State, timedOut: bool, n: nat)
    requires s.f.Sized() && s.disk.Flushed? && !s.f.flushDue && !s.f.inProgress && n >= 6
    ensures var f := s.f;
            VisitSteps(s, timedOut, n) ==
            if f.offset > 0 && timedOut && f.disk.Null? then s.(f := f.(flushDue := true), disk := Idle)
            else if f.disk.Null? || f.dlen < 1 then s.(disk := Idle)
            else AfterWrite(s.(f := Finish(Claim(f)), file := s.file + f.PendingBytes()))
  {
    hide Claim, Finish, SecondPass;
    var t := DiskStep(s, timedOut);
    if t.disk.Checked? {
      var u := DiskStep(t, timedOut);
      if u.disk.Ready? { FromReady(u, timedOut, n - 2); }
    }
  }

  // The end of a visit, after the write.
  ghost function AfterWrite(s: State): State {
    if !s.f.delayFree then s.(disk := Idle)
    else if s.f.offset > 0 then s.(f := SecondPass(s.f), disk := Idle)
    else s.(disk := Gone)
  }

  lemma FromReady(s: State, timedOut: bool, n: nat)
    requires s.f.Sized() && s.disk.Ready? && s.f.disk.At? && !s.f.inProgress && n >= 4
    ensures VisitSteps(s, timedOut, n)
         == AfterWrite(s.(f := Finish(Claim(s.f)), file := s.file + s.f.PendingBytes()))
  {
    var c := DiskStep(s, timedOut);
    var d := DiskStep(c, timedOut);
    var e := DiskStep(d, timedOut);
    assert VisitSteps(s, timedOut, n) == VisitSteps(c, timedOut, n - 1) == VisitSteps(d, timedOut, n - 2);
    assert VisitSteps(d, timedOut, n - 2) == VisitSteps(e, timedOut, n - 3);
    FromFinished(e, timedOut, n - 3);
  }

  lemma FromFinished(s: State, timedOut: bool, n: nat)
    requires s.f.Sized() && s.disk.Finished? && n >= 1
    ensures VisitSteps(s, timedOut, n) == AfterWrite(s) == DiskStep(s, timedOut)
  {
  }

  lemma {:induction false} VisitKeepsInv(s: State, timedOut: bool, n: nat)
    requires Inv(s)
    ensures Inv(VisitSteps(s, timedOut, n))
    decreases n
  {
    hide Inv, DiskStep;
    if n > 0 && Runnable(s) && !s.disk.Gone? {
      DiskPreserves(s, timedOut);
      if !DiskStep(s, timedOut).disk.Idle? {
        VisitKeepsInv(DiskStep(s, timedOut), timedOut, n - 1);
      }
    }
  }

  // Visits of the disk thread one after the other; clock tells of each whether it finds the flush
  // interval expired.
  ghost function Visits(s: State, clock: seq<bool>): State
    decreases |clock|
  {
    if clock == [] then s else Visits(VisitSteps(s, clock[0], 10), clock[1..])
  }

  // Some visit but the last finds the interval expired.
  predicate Expires(clock: seq<bool>) {
    exists i :: 0 <= i < |clock| - 1 && clock[i]
  }

  // Whether these visits empty an open session. Waiting data is written by the first visit. Data in
  // the current half needs an expired visit to raise the flag and another to flush; and while a
  // buffer is waiting, or once a write has reset the clock, the flag cannot go up.
  predicate Emptied(f: Fields, clock: seq<bool>) {
    if f.offset == 0 then f.disk.At? ==> clock != []
    else if f.disk.At? then clock != [] && Expires(clock[1..])
    else if f.flushDue then clock != []
    else Expires(clock)
  }

  lemma ExpiresNext(clock: seq<bool>)
    requires clock != []
    ensures Expires(clock) <==> (clock[0] && |clock| > 1) || Expires(clock[1..])
  {
    var rest := clock[1..];
    if i :| 0 <= i < |clock| - 1 && clock[i] {
      if i > 0 { assert rest[i - 1] == clock[i]; }
    }
    if i :| 0 <= i < |rest| - 1 && rest[i] { assert clock[i + 1] == rest[i]; }
  }

  // One visit to a session that gets no more data.
  lemma VisitHelps(s: State, clock: seq<bool>)
    requires Inv(s) && s.disk.Idle? && !s.f.closed && s.net.Waiting? && clock != []
    ensures var t := VisitSteps(s, clock[0], 10);
            && Inv(t) && t.disk.Idle? && !t.f.closed && t.net.Waiting? && t.received == s.received
            && (Emptied(s.f, clock) <==> Emptied(t.f, clock[1..]))
  {
    VisitIsSteps(s, clock[0]);
    VisitKeepsInv(s, clock[0], 10);
    hide Expires;
    ExpiresNext(clock);
    NeverExpires();
  }

  lemma NeverExpires()
    ensures !Expires([])
  {
  }

  // If nothing more arrives, a run of visits brings everything received to the file if and only if
  // the interval expires where it is needed, whatever the clock does otherwise.
  lemma {:induction false} QuietSessionIsWritten(s: State, clock: seq<bool>)
    requires Inv(s) && s.disk.Idle? && !s.f.closed && s.net.Waiting?
    ensures Visits(s, clock).file == s.received <==> Emptied(s.f, clock)
    decreases |clock|
  {
    hide Inv, VisitSteps;
    if clock == [] {
      WrittenMeansEmpty(s);
    } else {
      hide Emptied;
      VisitHelps(s, clock);
      QuietSessionIsWritten(VisitSteps(s, clock[0], 10), clock[1..]);
    }
  }

  lemma WrittenMeansEmpty(s: State)
    requires Inv(s) && s.disk.Idle? && !s.f.closed && s.net.Waiting?
    ensures s.file == s.received <==> s.f.offset == 0 && s.f.disk.Null?
  {
    assert |s.received| == |s.file| + |s.f.PendingBytes()| + |s.f.CurBytes()|;
    if s.f.offset == 0 && s.f.disk.Null? { assert s.received == s.file + [] + [] + [] + []; }
  }

  // In particular an expired visit that is neither the first nor the last always suffices.
  lemma ExpiryInTheMiddle(s: State, clock: seq<bool>, i: nat)
    requires Inv(s) && s.disk.Idle? && !s.f.closed && s.net.Waiting?
    requires 0 < i < |clock| - 1 && clock[i]
    ensures Visits(s, clock).file == s.received
  {
    hide Inv, Visits;
    QuietSessionIsWritten(s, clock);
    assert clock[1..][i - 1] && clock[i];
  }

  // ---- what is stored gets written, whatever else happens ----

  // The bytes handed over or further, and all bytes stored.
  function Handed(s: State): nat
    requires s.f.Sized()
  {
    |s.file| + |ClaimedBytes(s)| + |s.f.PendingBytes()|
  }

  function Stored(s: State): nat
    requires s.f.Sized()
  {
    Handed(s) + s.f.offset
  }

  // The disk thread looks at the clock and finds the flush interval expired.
  predicate Expiry(s: State, step: Step) { s.disk.Flushed? && step == Disk(true) }

  // How many expiries, at most, the first n bytes wait for until the visit that writes them.
  function ExpiriesLeft(s: State, n: nat): nat
    requires s.f.Sized()
  {
    if n <= |s.file| + |ClaimedBytes(s)| then 0
    else if n <= Handed(s) then (if s.disk.Checked? || s.disk.Ready? then 0 else 1)
    else if s.f.disk.At? then (if s.disk.Checked? || s.disk.Ready? then 2 else 3)
    else if s.f.inProgress then 2
    else if s.disk.Arming? || s.disk.Flushing? || (s.f.flushDue && (s.disk.Idle? || s.disk.Entered?)) then 1
    else 2
  }

  // No step of an open session makes them wait longer, and an expiry brings the write nearer.
  lemma ExpiryHelps(s: State, step: Step, n: nat)
    requires Inv(s) && Guarded(s, step) && !s.f.closed && !step.Close? && n <= Stored(s)
    requires Apply(s, step).Next?
    ensures var t := Apply(s, step).s;
            && Inv(t) && !t.f.closed && n <= Stored(t) && s.received <= t.received
            && ExpiriesLeft(t, n) <= ExpiriesLeft(s, n)
            && (Expiry(s, step) && ExpiriesLeft(s, n) > 0 ==> ExpiriesLeft(t, n) < ExpiriesLeft(s, n))
  {
    StepPreserves(s, step);
    match step
    case Disk(timedOut) => DiskKeepsWaiting(s, timedOut, n);
    case _ => NetworkKeepsWaiting(s, step, n);
  }

  lemma DiskKeepsWaiting(s: State, timedOut: bool, n: nat)
    requires Inv(s) && !s.f.closed && n <= Stored(s) && !s.disk.Gone?
    ensures var t := DiskStep(s, timedOut);
            && t.f.Sized() && !t.f.closed && n <= Stored(t) && s.received == t.received
            && ExpiriesLeft(t, n) <= ExpiriesLeft(s, n)
            && (s.disk.Flushed? && timedOut && ExpiriesLeft(s, n) > 0 ==> ExpiriesLeft(t, n) < ExpiriesLeft(s, n))
  {
  }

  lemma NetworkKeepsWaiting(s: State, step: Step, n: nat)
    requires Inv(s) && Guarded(s, step) && !s.f.closed && !step.Close? && !step.Disk? && n <= Stored(s)
    requires Apply(s, step).Next? && Inv(Apply(s, step).s)
    ensures var t := Apply(s, step).s;
            && !t.f.closed && n <= Stored(t) && s.received <= t.received && ExpiriesLeft(t, n) <= ExpiriesLeft(s, n)
  {
  }

  // How often in a run the disk thread finds the interval expired.
  ghost function Expiries(s: State, steps: seq<Step>): nat
    decreases |steps|
  {
    if steps == [] || !Runnable(s) || !Apply(s, steps[0]).Next? then 0
    else (if Expiry(s, steps[0]) then 1 else 0) + Expiries(Apply(s, steps[0]).s, steps[1..])
  }

  lemma {:induction false} RunOfExpiries(s: State, steps: seq<Step>, n: nat)
    requires Inv(s) && !s.f.closed && GuardedRun(s, steps) && Run(s, steps).Next? && n <= Stored(s)
    requires forall i :: 0 <= i < |steps| ==> !steps[i].Close?
    ensures var t := Run(s, steps).s;
            && Inv(t) && s.received <= t.received && n <= Stored(t)
            && ExpiriesLeft(t, n) <= (if Expiries(s, steps) >= ExpiriesLeft(s, n) then 0
                                      else ExpiriesLeft(s, n) - Expiries(s, steps))
    decreases |steps|
  {
    hide Inv, Apply, Guarded, ExpiriesLeft, Stored, Expiry;
    if steps != [] {
      InvRunnable(s);
      ExpiryHelps(s, steps[0], n);
      RunOfExpiries(Apply(s, steps[0]).s, steps[1..], n);
    }
  }

  // Everything stored at some moment is in the file, in order, once the disk thread has found the
  // interval expired three times and then ended its visit, whatever the network thread appends, swaps
  // and enlarges in between and whatever the clock says at other times.
  lemma StoredGetsWritten(s: State, steps: seq<Step>)
    requires Inv(s) && !s.f.closed && GuardedRun(s, steps) && Run(s, steps).Next?
    requires forall i :: 0 <= i < |steps| ==> !steps[i].Close?
    requires Expiries(s, steps) >= 3 && Run(s, steps).s.disk.Idle?
    ensures s.file + ClaimedBytes(s) + s.f.PendingBytes() + s.f.CurBytes() <= Run(s, steps).s.file
  {
    var n, t := Stored(s), Run(s, steps).s;
    RunOfExpiries(s, steps, n);
    assert n <= |t.file|;
    StoredIsPrefix(s);
    StoredIsPrefix(t);
    var stored := s.file + ClaimedBytes(s) + s.f.PendingBytes() + s.f.CurBytes();
    assert stored == t.received[..n] == t.file[..n];
  }

  lemma StoredIsPrefix(s: State)
    requires Inv(s)
    ensures var stored := s.file + ClaimedBytes(s) + s.f.PendingBytes() + s.f.CurBytes();
            s.file <= stored <= s.received && |stored| == Stored(s)
  {
  }

  // ---- the disk thread alone ----

  // The disk thread runs on, its clock comparisons given by choices, until it frees the session.
  ghost function DiskRun(s: State, choices: seq<bool>): State
    decreases |choices|
  {
    if choices == [] || !Runnable(s) || s.disk.Gone? then s
    else DiskRun(DiskStep(s, choices[0]), choices[1..])
  }

  // Steps to go, at most, for a stuck session.
  function StuckRank(d: DiskPc): nat {
    match d
    case Arming => 12 case Finished => 11 case Idle => 10 case Entered => 9 case Flushing => 8
    case Unflagging => 7 case Flushed => 6 case Checked => 5 case Ready => 4 case Claimed(_, _) => 3
    case Written => 2 case Gone => 0
  }

  // A stuck session reads nothing more, and each step of the disk thread brings its release nearer.
  lemma StuckStep(s: State, step: Step)
    requires Inv(s) && s.f.stuck && Guarded(s, step)
    ensures !s.disk.Gone?
    ensures step.Disk? || step.Close? || Apply(s, step) == Disabled
    ensures Apply(s, step).Next? ==>
              var t := Apply(s, step).s;
              !t.f.stuck || (if step.Disk? then StuckRank(t.disk) < StuckRank(s.disk) else t.disk == s.disk)
  {
  }

  lemma {:induction false} BackPressureClears(s: State, choices: seq<bool>) returns (n: nat)
    requires Inv(s) && |choices| >= StuckRank(s.disk)
    ensures n <= StuckRank(s.disk) && Inv(DiskRun(s, choices[..n])) && !DiskRun(s, choices[..n]).f.stuck
    decreases StuckRank(s.disk)
  {
    hide Inv, DiskStep;
    if !s.f.stuck {
      n := 0;
    } else {
      StuckStep(s, Disk(false));
      StuckStep(s, Disk(choices[0]));
      InvRunnable(s);
      DiskPreserves(s, choices[0]);
      var t := DiskStep(s, choices[0]);
      if !t.f.stuck {
        n := 1;
        assert choices[..1][1..] == [];
      } else {
        n := BackPressureClears(t, choices[1..]);
        n := n + 1;
        assert choices[..n][1..] == choices[1..][..n - 1];
      }
    }
  }

  // ---- teardown ----

  // A closed session some of whose bytes can no longer reach the file: what is written and what
  // is still going to be written fall short of what was received.
  ghost predicate Doomed(s: State) {
    var f := s.f;
    && f.Sized() && s.net.Waiting? && f.closed && f.delayFree
    && match s.disk
       case Gone => |s.file| < |s.received|
       case Claimed(_, len) => f.offset == 0 && len <= f.memLen && |s.file| + len < |s.received|
       case Written => f.offset == 0 && |s.file| < |s.received|
       case Finished => |s.file| + f.offset < |s.received| && !f.inProgress
       case Arming => false
       case _ => f.offset == 0 && f.disk.At? && f.dlen > 0 && !f.inProgress && |s.file| + f.dlen < |s.received|
  }

  ghost predicate Teardown(s: State) {
    Doomed(s) || (Inv(s) && s.f.closed)
  }

  lemma DiskStays(s: State, timedOut: bool)
    requires (Teardown(s) || Inv(s)) && !s.disk.Gone?
    ensures Runnable(s)
    ensures Inv(s) ==> Inv(DiskStep(s, timedOut))
    ensures Doomed(s) ==> Doomed(DiskStep(s, timedOut))
    ensures DiskStep(s, timedOut).f.closed == s.f.closed
    ensures DiskStep(s, timedOut).received == s.received
  {
    if Inv(s) { DiskPreserves(s, timedOut); }
    if Doomed(s) { DoomedStays(s, timedOut); }
  }

  lemma DoomedStays(s: State, timedOut: bool)
    requires Doomed(s) && !s.disk.Gone?
    ensures Doomed(DiskStep(s, timedOut))
  {
  }

  // Closing inside a disk write, with data in the current half, dooms that data.
  lemma UnguardedCloseDooms(s: State)
    requires Inv(s) && s.net.Waiting? && !s.f.closed && !Guarded(s, Close)
    ensures Doomed(s.(f := CloseSession(s.f)))
  {
    assert |s.received| == |s.file| + |ClaimedBytes(s)| + |s.f.PendingBytes()| + |s.f.CurBytes()|;
  }

  // Disk-thread steps left until a closed session is freed, at most.
  function DrainRank(s: State): nat {
    var pass := if s.f.delayFree && s.f.offset > 0 then 100 else 0;
    if s.disk.Gone? then pass
    else if s.disk.Finished? then pass + 2
    else if s.disk.Idle? && !s.f.delayFree then pass + 1
    else pass + StuckRank(s.disk) + 2
  }

  lemma DrainStep(s: State, timedOut: bool)
    requires Teardown(s) && !s.disk.Gone?
    ensures Runnable(s) && DrainRank(DiskStep(s, timedOut)) < DrainRank(s)
  {
  }

  // The disk thread alone frees every closed session within DrainRank of its own steps. The file then
  // holds everything received, in order, if the session was not doomed, and never if it was.
  lemma {:induction false} TeardownEnds(s: State, choices: seq<bool>)
    requires Teardown(s) && |choices| >= DrainRank(s)
    ensures DiskRun(s, choices).disk.Gone? && DiskRun(s, choices).received == s.received
    ensures Inv(s) ==> DiskRun(s, choices).file == s.received
    ensures Doomed(s) ==> DiskRun(s, choices).file != s.received
    decreases |choices|
  {
    if s.disk.Gone? {
      if Inv(s) { assert s.received == s.file + [] + [] + [] + []; }
    } else {
      hide Inv, Doomed, DiskStep;
      DrainStep(s, choices[0]);
      DiskStays(s, choices[0]);
      TeardownEnds(DiskStep(s, choices[0]), choices[1..]);
    }
  }

  // Closing a session loses nothing exactly when its current half is empty or the disk thread is
  // not between claiming a buffer and leaving the session: then, and only then, the disk thread
  // writes all that was received before it frees the session, in one pass or two.
  lemma CloseDrainsIff(s: State, choices: seq<bool>)
    requires Inv(s) && s.net.Waiting? && !s.f.closed
    requires |choices| >= 114
    ensures Apply(s, Close).Next?
    ensures var t := Apply(s, Close).s;
            && Teardown(t) && DiskRun(t, choices).disk.Gone?
            && (DiskRun(t, choices).file == s.received <==> s.f.offset == 0 || !PastClaim(s.disk))
  {
    var t := Apply(s, Close).s;
    if Guarded(s, Close) {
      ClosePreserves(s);
    } else {
      UnguardedCloseDooms(s);
    }
    TeardownEnds(t, choices);
  }

  // ---- the other two guards ----

  // Each guard is needed where it stands: a step that finds it broken breaks the invariant.
  lemma GuardsAreExact(s: State, step: Step)
    requires Inv(s) && Apply(s, step).Next?
    ensures Inv(Apply(s, step).s) <==> Guarded(s, step)
  {
    if Guarded(s, step) {
      StepPreserves(s, step);
    } else {
      match step
      case Lock(steady, memory) => StaleLockWedges(s, steady, memory);
      case Resume => BlindResumeBreaks(s, false);
      case Close =>
    }
  }

  // An empty buffer waits for the disk thread, which will not touch it.
  ghost predicate Wedged(s: State) {
    var f := s.f;
    && f.Sized() && Roomy(s) && !f.closed && !f.delayFree && f.disk.At? && f.dlen == 0 && !f.inProgress
    && !s.disk.Ready? && !s.disk.Claimed? && !s.disk.Written? && !s.disk.Gone?
    && !s.net.Spinning? && !s.net.Resuming?
  }

  // The lock section acting on a fullness test gone stale hands over an empty buffer.
  lemma StaleLockWedges(s: State, steady: bool, memory: bool)
    requires Inv(s) && s.net.SawFull? && !Guarded(s, Lock(steady, memory))
    ensures var o := Apply(s, Lock(steady, memory)); o.Next? && Wedged(o.s) && !Inv(o.s)
  {
    AppendBytes(Swap(s.f.(flushDue := false)), s.net.b);
  }

  lemma WedgedStep(s: State, step: Step)
    requires Wedged(s) && !step.Close?
    ensures Apply(s, step) != Overrun
    ensures Apply(s, step).Next? ==> Wedged(Apply(s, step).s) && Apply(s, step).s.file == s.file
  {
    match step
    case Lock(steady, memory) =>
      if s.net.SawFull? {
        if CanEnlarge(s.f, |s.net.b|, steady, memory) {
          EnlargeBytes(s.f, EnlargedLen(s.f, |s.net.b|));
        } else {
          AppendBytes(s.f.(stuck := true), s.net.b);
        }
      }
    case Recheck => if s.net.Have? && !s.f.Full(|s.net.b|) { AppendBytes(s.f, s.net.b); }
    case _ =>
  }

  // From then on, in every run without a close, the session writes nothing more.
  lemma {:induction false} WedgedForever(s: State, steps: seq<Step>)
    requires Wedged(s) && forall i :: 0 <= i < |steps| ==> !steps[i].Close?
    ensures Run(s, steps) != Overrun
    ensures Run(s, steps).Next? ==> Wedged(Run(s, steps).s) && Run(s, steps).s.file == s.file
    decreases |steps|
  {
    if steps != [] {
      assert Runnable(s);
      hide Wedged, Apply;
      WedgedStep(s, steps[0]);
      if Apply(s, steps[0]).Next? { WedgedForever(Apply(s, steps[0]).s, steps[1..]); }
    }
  }

  // A wedged session after a close that found data in its current half.
  ghost predicate Orphaned(s: State) {
    var f := s.f;
    && f.Sized() && f.delayFree && f.disk.At? && f.dlen == 0 && !f.inProgress
    && !s.disk.Ready? && !PastClaim(s.disk) && !s.disk.Gone?
  }

  lemma {:induction false} OrphanedForever(s: State, choices: seq<bool>)
    requires Orphaned(s)
    ensures Orphaned(DiskRun(s, choices)) && DiskRun(s, choices).file == s.file
    decreases |choices|
  {
    if choices != [] { OrphanedForever(DiskStep(s, choices[0]), choices[1..]); }
  }

  lemma {:induction false} EmptyWedgeIsFreed(s: State, choices: seq<bool>)
    requires s.f.Sized() && s.f.closed && !s.f.delayFree && s.f.offset == 0 && !s.f.inProgress
    requires s.f.disk.At? && s.f.dlen == 0 && !s.disk.Ready? && !s.disk.Claimed? && !s.disk.Written?
    requires |choices| >= DrainRank(s)
    ensures DiskRun(s, choices).disk.Gone? && DiskRun(s, choices).file == s.file
    decreases |choices|
  {
    if !s.disk.Gone? { EmptyWedgeIsFreed(DiskStep(s, choices[0]), choices[1..]); }
  }

  // Closing a wedged session: with data in its current half it is never freed and the data never
  // written; without, it is freed.
  lemma ClosedWhileWedged(s: State, choices: seq<bool>)
    requires Wedged(s) && s.net.Waiting? && Guarded(s, Close) && |choices| >= 14
    ensures Apply(s, Close).Next?
    ensures var t := DiskRun(Apply(s, Close).s, choices);
            t.file == s.file && (t.disk.Gone? <==> s.f.offset == 0)
  {
    var t := Apply(s, Close).s;
    if s.f.offset > 0 {
      OrphanedForever(t, choices);
    } else {
      EmptyWedgeIsFreed(t, choices);
    }
  }

  // After the spin the code swaps without looking again. If a buffer has been handed over
  // meanwhile its bytes are dropped; if a write has begun, the half being written is reused; if the
  // write has ended but not its bookkeeping, that drops the bytes handed over and an empty buffer
  // is left; and if there was nothing to hand over, an empty buffer is handed over. Either wedges the session.
  lemma BlindResumeBreaks(s: State, timedOut: bool)
    requires Inv(s) && s.net.Resuming? && !Guarded(s, Resume)
    ensures var o := Apply(s, Resume);
            && o.Next? && !Inv(o.s)
            && (s.f.disk.At? ==>
                  |o.s.file| + |ClaimedBytes(o.s)| + |o.s.f.PendingBytes()| + |o.s.f.CurBytes()| < |o.s.received|)
            && (s.disk.Claimed? ==> s.disk.buf == o.s.f.cur)
            && (s.disk.Written? ==>
                  var t := DiskStep(o.s, timedOut);
                  Wedged(t) && |t.file| + |t.f.CurBytes()| + s.f.offset == |t.received|)
            && (s.f.disk.Null? && !s.f.inProgress ==> Wedged(o.s))
  {
    var g := Swap(s.f.(flushDue := false));
    assert g.PendingBytes() == s.f.CurBytes() && g.CurBytes() == [];
    AppendBytes(g, s.net.b);
    assert |s.received| == |s.file| + |ClaimedBytes(s)| + |s.f.PendingBytes()| + |s.f.CurBytes()| + |s.net.b|;
  }
}
