// The bounded-parallel job runner (ParallelExecRemote.c): a fixed table of running children,
// refilled as they exit, until every address of the list has been reported.
module JobRunner {
  // struct stupidMap: the child's pid (0 for a free slot) and the index of its address.
  datatype Slot = Slot(key: int, val: nat)

  // ---- the slot table on values ----

  // place says in which slot each running child stands, running which address it works on.
  ghost predicate Table(slots: seq<Slot>, place: map<int, nat>, running: map<int, nat>) {
    && place.Keys == running.Keys
    && (forall pid :: pid in place ==> pid > 0 && place[pid] < |slots| && slots[place[pid]] == Slot(pid, running[pid]))
    && (forall i :: 0 <= i < |slots| && slots[i].key != 0 ==> slots[i].key in place && place[slots[i].key] == i)
  }

  ghost function Keys(slots: seq<Slot>): set<int> {
    set i | 0 <= i < |slots| && slots[i].key != 0 :: slots[i].key
  }

  lemma {:induction false} KeyCount(slots: seq<Slot>)
    requires forall i, j :: 0 <= i < j < |slots| && slots[i].key != 0 ==> slots[i].key != slots[j].key
    ensures |Keys(slots)| <= |slots|
    ensures |Keys(slots)| == |slots| <==> forall i :: 0 <= i < |slots| ==> slots[i].key != 0
  {
    if slots == [] {
      assert Keys(slots) == {};
    } else {
      var n := |slots| - 1;
      KeyCount(slots[..n]);
      var k := slots[n].key;
      if k != 0 {
        assert Keys(slots) == Keys(slots[..n]) + {k};
        assert k !in Keys(slots[..n]);
      } else {
        assert Keys(slots) == Keys(slots[..n]);
      }
    }
  }

  // As many children run as slots are taken.
  lemma RunningCount(slots: seq<Slot>, place: map<int, nat>, running: map<int, nat>)
    requires Table(slots, place, running)
    ensures |running| <= |slots|
    ensures |running| == |slots| <==> forall i :: 0 <= i < |slots| ==> slots[i].key != 0
  {
    forall pid | pid in running ensures pid in Keys(slots) {
      assert slots[place[pid]].key == pid;
    }
    assert running.Keys == Keys(slots);
    assert |running.Keys| == |running|;
    KeyCount(slots);
  }

  lemma AddToTable(slots: seq<Slot>, place: map<int, nat>, running: map<int, nat>, i: nat, pid: int, val: nat)
    requires Table(slots, place, running) && i < |slots| && slots[i].key == 0 && pid > 0 && pid !in running
    ensures Table(slots[i := Slot(pid, val)], place[pid := i], running[pid := val])
    ensures |running[pid := val]| == |running| + 1
  {
    assert running[pid := val].Keys == running.Keys + {pid};
  }

  lemma RemoveFromTable(slots: seq<Slot>, place: map<int, nat>, running: map<int, nat>, i: nat)
    requires Table(slots, place, running) && i < |slots| && slots[i].key != 0
    ensures Table(slots[i := slots[i].(key := 0)], place - {slots[i].key}, running - {slots[i].key})
    ensures |running - {slots[i].key}| == |running| - 1
  {
    var pid := slots[i].key;
    assert (running - {pid}).Keys == running.Keys - {pid};
    assert (place - {pid}).Keys == place.Keys - {pid};
  }

  // A running child is found in exactly one slot, which carries its address.
  lemma Lookup(slots: seq<Slot>, place: map<int, nat>, running: map<int, nat>, pid: int)
    requires Table(slots, place, running) && pid in running
    ensures pid in place && place[pid] < |slots| && slots[place[pid]] == Slot(pid, running[pid]) && pid > 0
    ensures forall i :: 0 <= i < |slots| && slots[i].key == pid ==> i == place[pid]
  {
  }

  // ---- which addresses have been started and reported ----

  // Every index below pos has been started: it is reported once and its child gone, or its one
  // child is running; nothing else is reported or running.
  ghost predicate Accounted(reported: seq<nat>, running: map<int, nat>, pos: nat) {
    && (forall i, j :: 0 <= i < j < |reported| ==> reported[i] != reported[j])
    && (forall p, q :: p in running && q in running && p != q ==> running[p] != running[q])
    && (forall p :: p in running ==> running[p] !in reported)
    && (forall k: nat :: k < pos <==> k in reported || exists p :: p in running && running[p] == k)
  }

  lemma AccountStart(reported: seq<nat>, running: map<int, nat>, pos: nat, pid: int)
    requires Accounted(reported, running, pos) && pid !in running
    ensures Accounted(reported, running[pid := pos], pos + 1)
  {
    var r := running[pid := pos];
    assert pos !in reported && forall p :: p in running ==> running[p] != pos;
    forall k: nat
      ensures k < pos + 1 <==> k in reported || exists p :: p in r && r[p] == k
    {
      if k == pos {
        assert pid in r && r[pid] == k;
      } else if exists p :: p in running && running[p] == k {
        var p :| p in running && running[p] == k;
        assert p in r && r[p] == k;
      }
    }
  }

  lemma AccountExit(reported: seq<nat>, running: map<int, nat>, pos: nat, pid: int)
    requires Accounted(reported, running, pos) && pid in running
    ensures Accounted(reported + [running[pid]], running - {pid}, pos)
  {
    var rep, r := reported + [running[pid]], running - {pid};
    forall k: nat
      ensures k < pos <==> k in rep || exists p :: p in r && r[p] == k
    {
      if exists p :: p in running && running[p] == k {
        var p :| p in running && running[p] == k;
        if p != pid { assert p in r && r[p] == k; }
      }
    }
  }

  lemma SomeKey(m: map<int, nat>) returns (k: int)
    requires |m| > 0
    ensures k in m
  {
    assert (forall p :: p !in m) ==> m == map[];
    k :| k in m;
  }

  predicate Unused(slots: seq<Slot>, pid: int) {
    pid > 0 && forall j :: 0 <= j < |slots| ==> slots[j].key != pid
  }

  lemma UnusedIsFresh(slots: seq<Slot>, place: map<int, nat>, running: map<int, nat>, pid: int)
    requires Table(slots, place, running) && Unused(slots, pid)
    ensures pid > 0 && pid !in running
  {
    if pid in running { Lookup(slots, place, running, pid); }
  }

  // Any pid that no slot holds.
  method ForkAmong(slots: seq<Slot>) returns (pid: int)
    ensures Unused(slots, pid)
  {
    var top, i := 0, 0;
    while i < |slots|
      invariant 0 <= i <= |slots| && top >= 0
      invariant forall j :: 0 <= j < i ==> slots[j].key <= top
    {
      if slots[i].key > top { top := slots[i].key; }
      i := i + 1;
    }
    assert Unused(slots, top + 1);
    var p: int :| Unused(slots, p);
    pid := p;
  }

  lemma AllFree(slots: seq<Slot>, place: map<int, nat>, running: map<int, nat>)
    requires Table(slots, place, running) && |running| == 0
    ensures forall i :: 0 <= i < |slots| ==> slots[i].key == 0
  {
    assert running.Keys == {};
  }

  class Runner {
    var pidmap: array<Slot>
    var totalIps: nat
    var pos: nat
    var alive: nat
    var nrExit: nat

    ghost var place: map<int, nat>
    ghost var running: map<int, nat>
    ghost var reported: seq<nat>

    ghost predicate Valid()
      reads this, pidmap
    {
      && pidmap.Length >= 1
      && Table(pidmap[..], place, running)
      && Accounted(reported, running, pos)
      && alive == |running| <= pidmap.Length
      && nrExit == |reported| && nrExit + alive == pos <= totalIps
    }

    // The state between two waits for events: as many children as allowed, or as are left.
    predicate Refilled()
      reads this
    {
      alive == if totalIps - nrExit < pidmap.Length then totalIps - nrExit else pidmap.Length
    }

    // stupidMap_Add
    method StupidMapAdd(key: int, val: nat) returns (slot: int)
      requires pidmap.Length >= 1
      modifies pidmap
      ensures slot == -1 ==> pidmap[..] == old(pidmap[..]) && forall i :: 0 <= i < pidmap.Length ==> pidmap[i].key != 0
      ensures slot != -1 ==> 0 <= slot < pidmap.Length && old(pidmap[slot]).key == 0
      ensures slot != -1 ==> forall i :: 0 <= i < slot ==> pidmap[i].key != 0
      ensures slot != -1 ==> pidmap[..] == old(pidmap[..])[slot := Slot(key, val)]
    {
      var i, loop := 0, 0;
      while loop < pidmap.Length
        invariant 0 <= loop <= pidmap.Length && i == (if loop == pidmap.Length then 0 else loop)
        invariant pidmap[..] == old(pidmap[..])
        invariant forall j :: 0 <= j < loop ==> pidmap[j].key != 0
        decreases pidmap.Length - loop
      {
        if pidmap[i].key == 0 {
          pidmap[i] := Slot(key, val);
          return i;
        }
        i := i + 1;
        loop := loop + 1;
        if i == pidmap.Length {
          i := 0;
        }
      }
      return -1;
    }

    // stupidMap_Remove
    method StupidMapRemove(key: int) returns (val: int, ghost at: int)
      requires pidmap.Length >= 1
      modifies pidmap
      ensures val == -1 ==> pidmap[..] == old(pidmap[..]) && forall i :: 0 <= i < pidmap.Length ==> pidmap[i].key != key
      ensures val != -1 ==> 0 <= at < pidmap.Length && old(pidmap[at]).key == key && old(pidmap[at]).val == val
      ensures val != -1 ==> pidmap[..] == old(pidmap[..])[at := old(pidmap[at]).(key := 0)]
      ensures val != -1 ==> forall i :: 0 <= i < at ==> old(pidmap[i]).key != key
    {
      var i, loop := 0, 0;
      val, at := -1, -1;
      while loop < pidmap.Length
        invariant 0 <= loop <= pidmap.Length && i == (if loop == pidmap.Length then 0 else loop)
        invariant pidmap[..] == old(pidmap[..])
        invariant forall j :: 0 <= j < loop ==> pidmap[j].key != key
        decreases pidmap.Length - loop
      {
        if pidmap[i].key == key {
          val := pidmap[i].val;
          pidmap[i] := pidmap[i].(key := 0);
          at := i;
          return;
        }
        i := i + 1;
        loop := loop + 1;
        if i == pidmap.Length {
          i := 0;
        }
      }
    }

    // A child has been forked for the next address: give it a slot. The lookup never fails.
    method Launch(pid: int)
      requires Valid() && pos < totalIps && alive < pidmap.Length && pid > 0 && pid !in running
      modifies this, pidmap
      ensures Valid() && pidmap == old(pidmap) && totalIps == old(totalIps)
      ensures running == old(running)[pid := old(pos)] && reported == old(reported)
      ensures pos == old(pos) + 1 && alive == old(alive) + 1 && nrExit == old(nrExit)
    {
      hide Table, Accounted;
      ghost var before := pidmap[..];
      RunningCount(before, place, running);
      var slot := StupidMapAdd(pid, pos);
      assert slot != -1;
      AddToTable(before, place, running, slot, pid, pos);
      AccountStart(reported, running, pos, pid);
      place := place[pid := slot];
      running := running[pid := pos];
      pos := pos + 1;
      alive := alive + 1;
    }

    // waitpid has returned a child: report its address. The lookup never fails.
    method Reap(pid: int) returns (slot: int)
      requires Valid() && pid in running
      modifies this, pidmap
      ensures Valid() && pidmap == old(pidmap) && totalIps == old(totalIps) && pos == old(pos)
      ensures slot == old(running)[pid] && reported == old(reported) + [old(running)[pid]]
      ensures running == old(running) - {pid}
      ensures nrExit == old(nrExit) + 1 && alive == old(alive) - 1
    {
      hide Table, Accounted;
      ghost var before := pidmap[..];
      Lookup(before, place, running, pid);
      assert pidmap[place[pid]].key == pid;
      ghost var at;
      slot, at := StupidMapRemove(pid);
      RemoveFromTable(before, place, running, place[pid]);
      AccountExit(reported, running, pos, pid);
      reported := reported + [running[pid]];
      place := place - {pid};
      running := running - {pid};
      nrExit := nrExit + 1;
      alive := alive - 1;
    }

    // main: a cleared slot table for at least one child, and n >= 1 addresses.
    constructor (parallelNum: nat, total: nat)
      requires parallelNum >= 1
      ensures Valid() && fresh(pidmap) && pidmap.Length == parallelNum && totalIps == total
      ensures pos == alive == nrExit == 0 && reported == [] && running == map[]
    {
      pidmap := new Slot[parallelNum](_ => Slot(0, 0));
      totalIps, pos, alive, nrExit := total, 0, 0, 0;
      place, running, reported := map[], map[], [];
    }

    // fork: a positive pid that no running child has.
    method Fork() returns (pid: int)
      requires Valid()
      ensures pid > 0 && pid !in running
    {
      pid := ForkAmong(pidmap[..]);
      UnusedIsFresh(pidmap[..], place, running, pid);
    }

    // main: the first children go straight into the slots, one after the other.
    method Start()
      requires Valid() && pos == alive == nrExit == 0 && reported == [] && running == map[]
      modifies this, pidmap
      ensures Valid() && Refilled() && pidmap == old(pidmap) && totalIps == old(totalIps)
      ensures nrExit == 0 && reported == []
      ensures pos == alive == |running| == if totalIps < pidmap.Length then totalIps else pidmap.Length
    {
      hide Table, Accounted;
      ghost var n0 := pidmap.Length;
      AllFree(pidmap[..], place, running);
      var n := 0;
      while n < totalIps && n < pidmap.Length
        invariant 0 <= n <= totalIps && n <= pidmap.Length
        invariant pidmap == old(pidmap) && totalIps == old(totalIps) && pos == alive == nrExit == 0 && reported == []
        invariant Table(pidmap[..], place, running) && Accounted(reported, running, n) && |running| == n
        invariant forall i :: n <= i < pidmap.Length ==> pidmap[i].key == 0
      {
        ghost var before := pidmap[..];
        var pid := ForkAmong(pidmap[..]);
        UnusedIsFresh(before, place, running, pid);
        AddToTable(before, place, running, n, pid, n);
        AccountStart(reported, running, n, pid);
        pidmap[n] := Slot(pid, n);
        assert pidmap[..] == before[n := Slot(pid, n)];
        place := place[pid := n];
        running := running[pid := n];
        n := n + 1;
      }
      pos := n;
      alive := n;
    }

    // The refill at the end of each round of core_process.
    method Refill()
      requires Valid()
      modifies this, pidmap
      ensures Valid() && Refilled()
      ensures pidmap == old(pidmap) && totalIps == old(totalIps) && nrExit == old(nrExit) && reported == old(reported)
    {
      while pos < totalIps && alive < pidmap.Length
        invariant Valid() && pidmap == old(pidmap) && totalIps == old(totalIps)
        invariant nrExit == old(nrExit) && reported == old(reported)
        decreases totalIps - pos
      {
        var pid := Fork();
        Launch(pid);
      }
    }

    // The handling of SIGCHLD: reap some children that have exited, at least one; more says when
    // waitpid has another, which it can only do while children are left.
    method ReapSome()
      requires Valid() && alive > 0
      modifies this, pidmap
      ensures Valid() && pidmap == old(pidmap) && totalIps == old(totalIps)
      ensures nrExit > old(nrExit) && old(reported) <= reported
    {
      var more := true;
      while more && alive > 0
        invariant Valid() && pidmap == old(pidmap) && totalIps == old(totalIps) && old(reported) <= reported
        invariant more ==> nrExit >= old(nrExit)
        invariant nrExit == old(nrExit) ==> more && alive > 0
        invariant nrExit >= old(nrExit)
        decreases alive
      {
        TakenSlot();
        var i :| 0 <= i < pidmap.Length && pidmap[i].key != 0;
        assert pidmap[..][i].key in running;
        var slot := Reap(pidmap[i].key);
        more := *;
      }
    }

    lemma TakenSlot()
      requires Valid() && alive > 0
      ensures exists i :: 0 <= i < pidmap.Length && pidmap[i].key != 0
    {
      var pid := SomeKey(running);
      assert pidmap[..][place[pid]].key == pid;
    }

    // The run of core_process after the initial fill: whichever children exit and in
    // whatever order, it ends with every address reported exactly once and no child left.
    method CoreProcess()
      requires Valid() && Refilled()
      modifies this, pidmap
      ensures Valid() && nrExit == totalIps == old(totalIps) && alive == 0 && running == map[]
      ensures |reported| == totalIps
      ensures forall i, j :: 0 <= i < j < |reported| ==> reported[i] != reported[j]
      ensures forall k: nat :: k in reported <==> k < totalIps
    {
      while nrExit != totalIps
        invariant Valid() && Refilled() && totalIps == old(totalIps) && pidmap == old(pidmap)
        decreases totalIps - nrExit
      {
        ReapSome();
        if nrExit == totalIps {
          break;
        }
        Refill();
      }
      assert |running| == 0;
      assert running.Keys == {};
    }
  }
}
