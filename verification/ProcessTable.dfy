/**
 The process table of src/yos/proc.c: slots that change state in place as processes are made, end and are
 waited for.  A process's own thread keeps a pointer to its slot, not its pid.
 */
module ProcessTable {
  const MAX_PROCS: nat := 256

  datatype State = Free | Ready | Running | Zombie

  datatype Proc = Proc(pid: nat, ppid: int, state: State, exitCode: int, termSig: int)

  predicate IsLive(p: Proc) { p.state == Ready || p.state == Running }

  /** The status word that waitpid stores. */
  function Status(exitCode: int, termSig: int): nat {
    if termSig != 0 then termSig % 0x80 else exitCode % 0x100 * 0x100
  }

  /** WIFSIGNALED and WTERMSIG, WIFEXITED and WEXITSTATUS. */
  function SignalOf(status: nat): nat { status % 0x80 }
  function ExitOf(status: nat): nat { status / 0x100 % 0x100 }

  /** The word tells an exit from a signal, and which, exactly when the signal number fits its seven bits. */
  lemma StatusDecodes(exitCode: int, termSig: nat)
    ensures SignalOf(Status(exitCode, termSig)) == termSig <==> termSig < 0x80
    ensures termSig == 0 ==> ExitOf(Status(exitCode, termSig)) == exitCode % 0x100 && Status(exitCode, termSig) == 256 * (exitCode % 256)
    ensures 0 < termSig < 128 ==> Status(exitCode, termSig) == termSig
    ensures termSig != 0 ==> ExitOf(Status(exitCode, termSig)) == 0
  {
    if termSig == 0 {
      var low := exitCode % 0x100;
      assert low * 0x100 % 0x80 == (low * 2) * 0x80 % 0x80 == 0;
      assert low * 0x100 / 0x100 == low;
    }
  }

  /** What has become of a pid that was given out. */
  datatype Fate =
    | Alive(slot: nat)
    | Dead(slot: nat, exitCode: int, termSig: int)
    | Reaped(parent: int, status: nat)
    | Dropped

  /** What a waiting parent learns. */
  datatype Answer = NoChildren | NoneYet | Blocked | Child(pid: nat, status: nat)

  datatype Receipt = Receipt(parent: int, pid: nat, status: nat)

  /** Every pid ever given out has one fate, and the slots say the same. */
  ghost predicate Table(procs: seq<Proc>, nextPid: nat, home: map<nat, nat>, fates: map<nat, Fate>) {
    && |procs| == MAX_PROCS && nextPid >= 1
    && (forall p :: p in fates <==> 1 <= p < nextPid)
    && (forall p :: p in fates ==> p in home && home[p] < MAX_PROCS)
    && (forall i :: 0 <= i < MAX_PROCS ==> SlotAgrees(procs[i], i, fates))
    && (forall p :: p in fates ==> FateAgrees(p, procs, home, fates[p]))
  }

  ghost predicate SlotAgrees(q: Proc, i: nat, fates: map<nat, Fate>) {
    && (IsLive(q) ==> q.pid in fates && fates[q.pid] == Alive(i) && q.termSig == 0)
    && (q.state == Zombie ==> q.pid in fates && fates[q.pid] == Dead(i, q.exitCode, q.termSig))
  }

  ghost predicate FateAgrees(p: nat, procs: seq<Proc>, home: map<nat, nat>, fate: Fate)
    requires |procs| == MAX_PROCS && p in home && home[p] < MAX_PROCS
  {
    match fate
    case Alive(i) => i == home[p] && procs[i].pid == p && IsLive(procs[i])
    case Dead(i, _, _) => i == home[p] && procs[i].pid == p && procs[i].state == Zombie
    case _ => true
  }

  /** The waits that returned a child, against the fates. */
  ghost predicate Told(receipts: seq<Receipt>, fates: map<nat, Fate>) {
    && (forall k :: 0 <= k < |receipts| ==> receipts[k].pid in fates && fates[receipts[k].pid] == Reaped(receipts[k].parent, receipts[k].status))
    && (forall p :: p in fates && fates[p].Reaped? ==> exists k :: 0 <= k < |receipts| && receipts[k].pid == p)
    && (forall j, k :: 0 <= j < k < |receipts| ==> receipts[j].pid != receipts[k].pid)
  }

  /** Each pid has the parent it was given out with, in the slots and in the receipts too. */
  ghost predicate Kin(procs: seq<Proc>, fates: map<nat, Fate>, parents: map<nat, int>, receipts: seq<Receipt>) {
    && parents.Keys == fates.Keys
    && (forall i :: 0 <= i < |procs| && procs[i].state != Free ==> procs[i].pid in parents && parents[procs[i].pid] == procs[i].ppid)
    && (forall k :: 0 <= k < |receipts| ==> receipts[k].pid in parents && parents[receipts[k].pid] == receipts[k].parent)
  }

  lemma SlotsHaveDistinctPids(procs: seq<Proc>, nextPid: nat, home: map<nat, nat>, fates: map<nat, Fate>)
    requires Table(procs, nextPid, home, fates)
    ensures forall i, j :: 0 <= i < j < MAX_PROCS && procs[i].state != Free && procs[j].state != Free ==> procs[i].pid != procs[j].pid
    ensures forall i :: 0 <= i < MAX_PROCS && procs[i].state != Free ==> 1 <= procs[i].pid < nextPid
  {
    assert forall i :: 0 <= i < MAX_PROCS && procs[i].state != Free ==> SlotAgrees(procs[i], i, fates);
  }

  function LivePids(procs: seq<Proc>): set<nat> {
    set i | 0 <= i < |procs| && IsLive(procs[i]) :: procs[i].pid
  }

  function ZombiePids(procs: seq<Proc>): set<nat> {
    set i | 0 <= i < |procs| && procs[i].state == Zombie :: procs[i].pid
  }

  function ReapedPids(receipts: seq<Receipt>): set<nat> {
    set k | 0 <= k < |receipts| :: receipts[k].pid
  }

  function DroppedPids(fates: map<nat, Fate>): set<nat> {
    set p | p in fates && fates[p].Dropped?
  }

  /** Conservation: every pid given out is live, a zombie, reaped or dropped, and only one of these. */
  lemma Conservation(procs: seq<Proc>, nextPid: nat, home: map<nat, nat>, fates: map<nat, Fate>, receipts: seq<Receipt>)
    requires Table(procs, nextPid, home, fates) && Told(receipts, fates)
    ensures fates.Keys == LivePids(procs) + ZombiePids(procs) + ReapedPids(receipts) + DroppedPids(fates)
    ensures LivePids(procs) !! ZombiePids(procs) !! ReapedPids(receipts) !! DroppedPids(fates)
  {
    forall p | p in LivePids(procs) ensures p in fates && fates[p].Alive? {
      var i :| 0 <= i < |procs| && IsLive(procs[i]) && procs[i].pid == p;
      assert SlotAgrees(procs[i], i, fates);
    }
    forall p | p in ZombiePids(procs) ensures p in fates && fates[p].Dead? {
      var i :| 0 <= i < |procs| && procs[i].state == Zombie && procs[i].pid == p;
      assert SlotAgrees(procs[i], i, fates);
    }
    forall p | p in fates
      ensures p in LivePids(procs) + ZombiePids(procs) + ReapedPids(receipts) + DroppedPids(fates)
    {
      assert FateAgrees(p, procs, home, fates[p]);
    }
  }

  class Runtime {
    const procs: array<Proc>
    var nextPid: nat
    /** The slot each process's thread points to. */
    var home: map<nat, nat>
    var receipts: seq<Receipt>

    /** The processes whose thread has been made. */
    var threads: set<nat>

    ghost var fates: map<nat, Fate>
    /** The exit code or the signal with which each process's thread first ended. */
    ghost var ends: map<nat, (int, int)>
    /** The parent each process was made with. */
    ghost var parents: map<nat, int>

    ghost predicate Valid() reads this, procs {
      && procs.Length == MAX_PROCS && Table(procs[..], nextPid, home, fates) && Told(receipts, fates)
      && Kin(procs[..], fates, parents, receipts)
      && forall p :: p in threads ==> p in fates && !fates[p].Dropped?
    }

    constructor ()
      ensures Valid() && nextPid == 1 && receipts == [] && threads == {} && fates == map[] && ends == map[] && parents == map[] && fresh(procs)
      ensures home == map[] && forall i :: 0 <= i < MAX_PROCS ==> procs[i].state == Free
    {
      procs := new Proc[MAX_PROCS](_ => Proc(0, 0, Free, 0, 0));
      nextPid, home, receipts, threads := 1, map[], [], {};
      fates, ends, parents := map[], map[], map[];
    }

    /** yos_proc_alloc: the first free slot and a pid never given out before; 0 if the table is full. */
    method Alloc(ppid: int) returns (pid: nat)
      requires Valid()
      modifies this`nextPid, this`home, this`fates, this`parents, procs
      ensures Valid()
      ensures pid == 0 <==> forall i :: 0 <= i < MAX_PROCS ==> old(procs[i].state) != Free
      ensures pid == 0 ==> home == old(home) && procs[..] == old(procs[..]) && nextPid == old(nextPid) && fates == old(fates) && parents == old(parents)
      ensures pid != 0 ==> parents == old(parents)[pid := ppid]
      ensures pid != 0 ==> pid == old(nextPid) && nextPid == pid + 1 && fates == old(fates)[pid := Alive(home[pid])]
      ensures pid != 0 ==> pid in home && home == old(home)[pid := home[pid]] && home[pid] < MAX_PROCS
      ensures pid != 0 ==> procs[..] == old(procs[..])[home[pid] := Proc(pid, ppid, Ready, 0, 0)]
      ensures pid != 0 ==> old(procs[..])[home[pid]].state == Free && forall k :: 0 <= k < home[pid] ==> old(procs[k].state) != Free
    {
      for i := 0 to MAX_PROCS
        invariant procs[..] == old(procs[..]) && nextPid == old(nextPid) && fates == old(fates) && parents == old(parents) && Valid()
        invariant forall k :: 0 <= k < i ==> procs[k].state != Free
      {
        if procs[i].state == Free {
          pid := nextPid;
          TableAlloc(procs[..], nextPid, home, fates, i, ppid);
          TableFresh(procs[..], nextPid, home, fates);
          KinAlloc(procs[..], fates, parents, receipts, pid, i, ppid);
          ToldAlloc(receipts, fates, pid, i);
          procs[i] := Proc(pid, ppid, Ready, 0, 0);
          nextPid := nextPid + 1;
          home := home[pid := i];
          fates, parents := fates[pid := Alive(i)], parents[pid := ppid];
          return;
        }
      }
      pid := 0;
    }

    /** yos_proc_find: the slot that holds the pid, or -1. */
    method Find(pid: nat) returns (slot: int)
      requires Valid()
      ensures slot == -1 || (0 <= slot < MAX_PROCS && procs[slot].pid == pid && procs[slot].state != Free)
      ensures slot == -1 <==> !(pid in fates && (fates[pid].Alive? || fates[pid].Dead?))
    {
      for i := 0 to MAX_PROCS
        invariant forall k :: 0 <= k < i ==> !(procs[k].pid == pid && procs[k].state != Free)
      {
        if procs[i].pid == pid && procs[i].state != Free {
          assert SlotAgrees(procs[..][i], i, fates);
          return i;
        }
      }
      slot := -1;
      if pid in fates {
        assert FateAgrees(pid, procs[..], home, fates[pid]);
      }
    }

    /** The child's thread has been made. */
    method Start(pid: nat)
      requires Valid() && pid in fates && fates[pid].Alive?
      modifies procs, `threads
      ensures Valid() && threads == old(threads) + {pid}
      ensures procs[..] == old(procs[..])[home[pid] := old(procs[home[pid]]).(state := Running)]
    {
      hide Table, Told, Kin;
      TableHome(procs[..], nextPid, home, fates, pid);
      var i := home[pid];
      TableSame(procs[..], nextPid, home, fates, i, procs[i].(state := Running));
      KinSet(procs[..], fates, parents, receipts, i, procs[i].(state := Running), Alive(i));
      SameFate(procs[..], nextPid, home, fates, pid);
      procs[i] := procs[i].(state := Running);
      threads := threads + {pid};
    }

    /** The child's thread could not be made: its slot is free again and nobody will wait for it. */
    method Drop(pid: nat)
      requires Valid() && pid in fates && fates[pid].Alive? && pid !in threads
      modifies procs, `fates
      ensures Valid() && fates == old(fates)[pid := Dropped] && ends == old(ends)
      ensures procs[..] == old(procs[..])[home[pid] := old(procs[home[pid]]).(state := Free)]
    {
      hide Table, Told, Kin;
      TableHome(procs[..], nextPid, home, fates, pid);
      var i := home[pid];
      TableSet(procs[..], nextPid, home, fates, pid, procs[i].(state := Free), Dropped);
      KinSet(procs[..], fates, parents, receipts, i, procs[i].(state := Free), Dropped);
      ToldSet(receipts, fates, pid, Dropped);
      procs[i] := procs[i].(state := Free);
      fates := fates[pid := Dropped];
    }

    /**
     yos_exit, as far as the table goes: whatever live process is in the slot that the caller's thread
     points to becomes a zombie.  A freed slot stays free, but one that has been given out again does not
     tell its new process from the old.
     */
    method Exit(pid: nat, code: int)
      requires Valid() && pid in home && home[pid] < MAX_PROCS
      modifies procs, `fates, `ends
      ensures Valid()
      ensures ends == if pid in old(ends) then old(ends) else old(ends)[pid := (code, 0)]
      ensures var q := old(procs[home[pid]]);
              if IsLive(q) then
                procs[..] == old(procs[..])[home[pid] := q.(state := Zombie, exitCode := code)] &&
                q.termSig == 0 && q.pid in fates && fates == old(fates)[q.pid := Dead(home[pid], code, q.termSig)]
              else fates == old(fates) && procs[..] == old(procs[..])
      ensures pid in fates && old(fates[pid]).Alive? ==> old(procs[home[pid]]).pid == pid && IsLive(old(procs[home[pid]]))
    {
      hide Table, Told, Kin;
      var i := home[pid];
      var q := procs[i];
      TableSlot(procs[..], nextPid, home, fates, i);
      if pid in fates {
        TableHome(procs[..], nextPid, home, fates, pid);
      }
      if IsLive(q) {
        KinSet(procs[..], fates, parents, receipts, i, q.(state := Zombie, exitCode := code), Dead(i, code, q.termSig));
        TableSet(procs[..], nextPid, home, fates, q.pid, q.(state := Zombie, exitCode := code), Dead(i, code, q.termSig));
        ToldSet(receipts, fates, q.pid, Dead(i, code, q.termSig));
        procs[i] := q.(state := Zombie, exitCode := code);
        fates := fates[q.pid := Dead(i, code, q.termSig)];
      }
      if pid !in ends {
        ends := ends[pid := (code, 0)];
      }
    }

    /** A fatal signal, taken by the process's own thread. */
    method Terminate(pid: nat, signum: int)
      requires Valid() && pid in fates && fates[pid].Alive?
      modifies procs, `fates, `ends
      ensures Valid()
      ensures fates == old(fates)[pid := Dead(home[pid], 0, signum)] && ends == old(ends)[pid := (0, signum)]
      ensures procs[..] == old(procs[..])[home[pid] := old(procs[home[pid]]).(state := Zombie, exitCode := 0, termSig := signum)]
    {
      hide Table, Told, Kin;
      TableHome(procs[..], nextPid, home, fates, pid);
      var i := home[pid];
      var q := procs[i].(state := Zombie, exitCode := 0, termSig := signum);
      KinSet(procs[..], fates, parents, receipts, i, q, Dead(i, 0, signum));
      TableSet(procs[..], nextPid, home, fates, pid, q, Dead(i, 0, signum));
      ToldSet(receipts, fates, pid, Dead(i, 0, signum));
      procs[i] := q;
      fates := fates[pid := Dead(i, 0, signum)];
      ends := ends[pid := (0, signum)];
    }

    /** find_zombie_child: the first zombie that the parent may reap. */
    method FindZombieChild(ppid: int, pid: int) returns (slot: int)
      requires procs.Length == MAX_PROCS
      ensures slot == -1 || (0 <= slot < MAX_PROCS && IsZombieOf(procs[slot], ppid, pid))
      ensures slot == -1 <==> forall i :: 0 <= i < MAX_PROCS ==> !IsZombieOf(procs[i], ppid, pid)
      ensures forall k :: 0 <= k < slot ==> !IsZombieOf(procs[k], ppid, pid)
    {
      for i := 0 to MAX_PROCS
        invariant forall k :: 0 <= k < i ==> !IsZombieOf(procs[k], ppid, pid)
      {
        if IsZombieOf(procs[i], ppid, pid) {
          return i;
        }
      }
      slot := -1;
    }

    method HasChildren(ppid: int, pid: int) returns (has: bool)
      requires procs.Length == MAX_PROCS
      ensures has <==> exists i :: 0 <= i < MAX_PROCS && IsChildOf(procs[i], ppid, pid)
    {
      for i := 0 to MAX_PROCS
        invariant forall k :: 0 <= k < i ==> !IsChildOf(procs[k], ppid, pid)
      {
        if IsChildOf(procs[i], ppid, pid) {
          return true;
        }
      }
      has := false;
    }

    /** One look of a waiting parent for a zombie to reap: its own, the one asked for, and of several the first in the table. */
    method Reap(ppid: int, pid: int) returns (answer: Answer)
      requires Valid()
      modifies procs, `fates, `receipts
      ensures Valid() && (answer == Blocked || answer.Child?)
      ensures answer.Child? <==> exists p :: p in old(fates) && old(fates)[p].Dead? && parents[p] == ppid && (pid == -1 || p == pid)
      ensures answer == Blocked ==> fates == old(fates) && receipts == old(receipts) && procs[..] == old(procs[..])
      ensures answer.Child? ==>
                var p := answer.pid;
                && p in old(fates) && old(fates)[p].Dead? && parents[p] == ppid && (pid == -1 || p == pid)
                && answer.status == Status(old(fates)[p].exitCode, old(fates)[p].termSig)
                && fates == old(fates)[p := Reaped(ppid, answer.status)]
                && receipts == old(receipts) + [Receipt(ppid, p, answer.status)]
                && p in home && home[p] < MAX_PROCS
                && procs[..] == old(procs[..])[home[p] := old(procs[home[p]]).(state := Free)]
                && forall q :: q in old(fates) && old(fates)[q].Dead? && parents[q] == ppid && (pid == -1 || q == pid) ==> home[p] <= home[q]
    {
      hide Table, Told, Kin, Status;
      var i := FindZombieChild(ppid, pid);
      ZombiesAre(procs[..], nextPid, home, fates, parents, receipts, ppid, pid);
      if i < 0 {
        return Blocked;
      }
      var q := procs[i];
      TableSlot(procs[..], nextPid, home, fates, i);
      var status := Status(q.exitCode, q.termSig);
      TableSet(procs[..], nextPid, home, fates, q.pid, q.(state := Free), Reaped(ppid, status));
      ToldReap(receipts, fates, ppid, q.pid, status);
      KinReap(procs[..], fates, parents, receipts, i, Reaped(ppid, status), status);
      procs[i] := q.(state := Free);
      fates := fates[q.pid := Reaped(ppid, status)];
      receipts := receipts + [Receipt(ppid, q.pid, status)];
      answer := Child(q.pid, status);
    }

    /**
     yos_waitpid up to its blocking loop, which takes another look with Reap each time round: no children, if none of the
     caller's that matches is in the table; a child that has ended, if there is one; else nothing yet.
     */
    method WaitPid(ppid: int, pid: int, nohang: bool) returns (answer: Answer)
      requires Valid()
      modifies procs, `fates, `receipts
      ensures Valid()
      ensures answer == NoChildren <==>
              forall p :: p in old(fates) && (old(fates)[p].Alive? || old(fates)[p].Dead?) ==> !(parents[p] == ppid && (pid == -1 || p == pid))
      ensures answer.Child? <==> exists p :: p in old(fates) && old(fates)[p].Dead? && parents[p] == ppid && (pid == -1 || p == pid)
      ensures answer == NoneYet ==> nohang
      ensures answer == Blocked ==> !nohang
      ensures !answer.Child? ==> fates == old(fates) && receipts == old(receipts) && procs[..] == old(procs[..])
      ensures answer.Child? ==>
                var p := answer.pid;
                && p in old(fates) && old(fates)[p].Dead? && parents[p] == ppid && (pid == -1 || p == pid)
                && answer.status == Status(old(fates)[p].exitCode, old(fates)[p].termSig)
                && fates == old(fates)[p := Reaped(ppid, answer.status)]
                && receipts == old(receipts) + [Receipt(ppid, p, answer.status)]
                && p in home && home[p] < MAX_PROCS
                && procs[..] == old(procs[..])[home[p] := old(procs[home[p]]).(state := Free)]
                && forall q :: q in old(fates) && old(fates)[q].Dead? && parents[q] == ppid && (pid == -1 || q == pid) ==> home[p] <= home[q]
    {
      var has := HasChildren(ppid, pid);
      ChildrenAre(procs[..], nextPid, home, fates, parents, receipts, ppid, pid);
      if !has {
        return NoChildren;
      }
      answer := Reap(ppid, pid);
      if answer == Blocked && nohang {
        answer := NoneYet;
      }
    }

    ghost function Now(): Look
      reads this, procs
    {
      Look(procs[..], nextPid, home, receipts, threads, fates, ends, parents)
    }

    predicate Enabled(step: Step)
      requires procs.Length == MAX_PROCS
      reads `home, `threads, procs
    {
      match step
      case Starts(pid) => pid !in threads && InSlot(pid)
      case Drops(pid) => pid !in threads && InSlot(pid)
      case Exits(pid, _) => pid in threads
      case Dies(pid, _) => pid in threads && InSlot(pid)
      case _ => true
    }

    predicate InSlot(pid: nat)
      requires procs.Length == MAX_PROCS
      reads `home, procs
    {
      pid in home && home[pid] < MAX_PROCS && procs[home[pid]].pid == pid && IsLive(procs[home[pid]])
    }

    lemma EnabledIs(step: Step)
      requires procs.Length == MAX_PROCS
      ensures Enabled(step) <==> CanHappen(step, Now())
    {
    }

    lemma InSlotIsAlive(pid: nat)
      requires Valid() && InSlot(pid)
      ensures pid in fates && fates[pid].Alive?
    {
      assert SlotAgrees(procs[..][home[pid]], home[pid], fates);
    }

    /** One step of the table, by whichever thread. */
    method Perform(step: Step)
      requires Valid() && Enabled(step)
      modifies this, procs
      ensures Valid()
      ensures Effect(step, old(Now()), Now())
      ensures ends.Keys == old(ends.Keys) + if step.Exits? || step.Dies? then {Ender(step)} else {}
      ensures old(Honest(fates, ends) && Ender(step) !in ends) ==> Honest(fates, ends)
    {
      hide Table, Told, Kin, Honest, Effect;
      HonestGoesOn(step);
      ghost var b := Now();
      match step {
        case Allocs(ppid) =>
          var pid := Alloc(ppid);
          AllocEffect(ppid, pid, b, Now());
        case Starts(pid) =>
          InSlotIsAlive(pid);
          Start(pid);
          StartEffect(pid, b, Now());
        case Drops(pid) =>
          InSlotIsAlive(pid);
          Drop(pid);
          DropEffect(pid, b, Now());
        case Exits(pid, code) =>
          TableHome(procs[..], nextPid, home, fates, pid);
          Exit(pid, code);
          ExitEffect(pid, code, b, Now());
        case Dies(pid, signum) =>
          InSlotIsAlive(pid);
          Terminate(pid, signum);
          DieEffect(pid, signum, b, Now());
        case Waits(ppid, pid, nohang) =>
          KinKeys(procs[..], nextPid, home, fates, parents, receipts);
          var answer := WaitPid(ppid, pid, nohang);
          ReapEffect(ppid, pid, nohang, answer, b, Now());
        case Looks(ppid, pid) =>
          KinKeys(procs[..], nextPid, home, fates, parents, receipts);
          var answer := Reap(ppid, pid);
          ReapEffect(ppid, pid, false, answer, b, Now());
      }
    }

    /** What a step may do to the fates keeps them honest, unless it is a second end. */
    lemma HonestGoesOn(step: Step)
      requires Valid() && Enabled(step)
      ensures Honest(fates, ends) && Ender(step) !in ends ==>
                match step
                case Allocs(_) => forall i :: Honest(fates[nextPid := Alive(i)], ends)
                case Drops(pid) => Honest(fates[pid := Dropped], ends)
                case Exits(pid, code) =>
                  && pid in home && home[pid] < MAX_PROCS && pid in fates && fates[pid].Alive? && procs[home[pid]].pid == pid && IsLive(procs[home[pid]])
                  && Honest(fates[pid := Dead(home[pid], code, 0)], ends[pid := (code, 0)])
                case Dies(pid, signum) => Honest(fates[pid := Dead(home[pid], 0, signum)], ends[pid := (0, signum)])
                case Waits(_, _, _) =>
                  forall p, parent :: p in fates && fates[p].Dead? ==> Honest(fates[p := Reaped(parent, Status(fates[p].exitCode, fates[p].termSig))], ends)
                case Looks(_, _) =>
                  forall p, parent :: p in fates && fates[p].Dead? ==> Honest(fates[p := Reaped(parent, Status(fates[p].exitCode, fates[p].termSig))], ends)
                case _ => true
    {
      hide Table, Told, Honest;
      if Honest(fates, ends) && Ender(step) !in ends {
        match step {
          case Allocs(ppid) =>
            TableFresh(procs[..], nextPid, home, fates);
            HonestGrows(fates, ends, nextPid);
          case Drops(pid) =>
            InSlotIsAlive(pid);
            HonestDrops(fates, ends, pid);
          case Exits(pid, code) =>
            HonestAlive(fates, ends, pid);
            TableHome(procs[..], nextPid, home, fates, pid);
            HonestEnds(fates, ends, pid, home[pid], code, 0);
          case Dies(pid, signum) =>
            HonestAlive(fates, ends, pid);
            HonestEnds(fates, ends, pid, home[pid], 0, signum);
          case Waits(_, _, _) =>
            HonestReaps(fates, ends);
          case Looks(_, _) =>
            HonestReaps(fates, ends);
          case _ =>
        }
      }
    }

    /**
     Any run: no pid is reaped twice, and two occupied slots never have one pid.  If each process ends at most once, what is
     reaped is also how that process ended.
     */
    method Run(steps: seq<Step>) returns (ghost trace: seq<Look>)
      requires Valid()
      modifies this, procs
      ensures Valid()
      ensures IsTrace(steps, trace) && trace[0] == old(Now()) && trace[|steps|] == Now()
      ensures forall k :: 0 <= k < |receipts| ==> receipts[k].pid in parents && receipts[k].parent == parents[receipts[k].pid]
      ensures forall p :: p in old(parents) ==> p in parents && parents[p] == old(parents)[p]
      ensures forall j, k :: 0 <= j < k < |receipts| ==> receipts[j].pid != receipts[k].pid
      ensures forall i, j :: 0 <= i < j < MAX_PROCS && procs[i].state != Free && procs[j].state != Free ==> procs[i].pid != procs[j].pid
      ensures old(Honest(fates, ends)) && OnceEach(steps) && (forall k :: 0 <= k < |steps| ==> Ender(steps[k]) !in old(ends)) ==>
                Honest(fates, ends) && forall k :: 0 <= k < |receipts| ==>
                  var r := receipts[k];
                  r.pid in ends && r.status == Status(ends[r.pid].0, ends[r.pid].1)
    {
      hide Table, Told, Kin, Honest, Effect, IsTrace, CanHappen, Enabled;
      trace := [Now()];
      TraceStarts(steps[..0], trace);
      ghost var once := Honest(fates, ends) && OnceEach(steps) && forall k :: 0 <= k < |steps| ==> Ender(steps[k]) !in ends;
      for i := 0 to |steps|
        invariant Valid()
        invariant |trace| == i + 1 && IsTrace(steps[..i], trace) && trace[0] == old(Now()) && trace[i] == Now()
        invariant forall p :: p in old(parents) ==> p in parents && parents[p] == old(parents)[p]
        invariant once ==> Honest(fates, ends) && forall k :: i <= k < |steps| ==> Ender(steps[k]) !in ends
      {
        ghost var before := Now();
        EnabledIs(steps[i]);
        if Enabled(steps[i]) {
          KinKeys(procs[..], nextPid, home, fates, parents, receipts);
          Perform(steps[i]);
          ParentsStay(steps[i], before, Now());
          if once {
            NoPidZero(procs[..], nextPid, home, fates, ends);
          }
        }
        TraceGrows(steps, i, trace, Now());
        trace := trace + [Now()];
      }
      assert steps[..|steps|] == steps;
      KinKeys(procs[..], nextPid, home, fates, parents, receipts);
      SlotsHaveDistinctPids(procs[..], nextPid, home, fates);
      ToldOnce(receipts, fates);
      if once {
        ToldHonest(receipts, fates, ends);
      }
    }
  }

  datatype Step =
    | Allocs(ppid: int)
    | Starts(pid: nat)
    | Drops(pid: nat)
    | Exits(pid: nat, code: int)
    | Dies(pid: nat, signum: int)
    | Waits(ppid: int, child: int, nohang: bool)
    | Looks(ppid: int, child: int)

  /** Everything there is to see of the table. */
  datatype Look = Look(procs: seq<Proc>, nextPid: nat, home: map<nat, nat>, receipts: seq<Receipt>, threads: set<nat>,
                       fates: map<nat, Fate>, ends: map<nat, (int, int)>, parents: map<nat, int>)

  /** What a step does to the process table: one slot at most, and one pid's fate. */
  ghost predicate Effect(step: Step, b: Look, a: Look) {
    match step
    case Allocs(ppid) =>
      if forall i :: 0 <= i < |b.procs| ==> b.procs[i].state != Free then a == b
      else exists i: nat ::
        && i < |b.procs| && b.procs[i].state == Free && (forall k :: 0 <= k < i ==> b.procs[k].state != Free)
        && a == b.(procs := b.procs[i := Proc(b.nextPid, ppid, Ready, 0, 0)], nextPid := b.nextPid + 1, home := b.home[b.nextPid := i],
                   fates := b.fates[b.nextPid := Alive(i)], parents := b.parents[b.nextPid := ppid])
    case Starts(pid) =>
      && pid in b.home && b.home[pid] < |b.procs|
      && a == b.(threads := b.threads + {pid}, procs := b.procs[b.home[pid] := b.procs[b.home[pid]].(state := Running)])
    case Drops(pid) =>
      && pid in b.home && b.home[pid] < |b.procs|
      && a == b.(fates := b.fates[pid := Dropped], procs := b.procs[b.home[pid] := b.procs[b.home[pid]].(state := Free)])
    case Exits(pid, code) =>
      && pid in b.home && b.home[pid] < |b.procs|
      && (var slot, ends := b.home[pid], if pid in b.ends then b.ends else b.ends[pid := (code, 0)];
          var q := b.procs[slot];
          if q.state == Ready || q.state == Running
          then a == b.(ends := ends, procs := b.procs[slot := q.(state := Zombie, exitCode := code)], fates := b.fates[q.pid := Dead(slot, code, 0)])
          else a == b.(ends := ends))
    case Dies(pid, signum) =>
      && pid in b.home && b.home[pid] < |b.procs|
      && (var slot := b.home[pid];
          a == b.(ends := b.ends[pid := (0, signum)], fates := b.fates[pid := Dead(slot, 0, signum)],
                  procs := b.procs[slot := b.procs[slot].(state := Zombie, exitCode := 0, termSig := signum)]))
    case Waits(ppid, pid, _) => Reaps(ppid, pid, b, a)
    case Looks(ppid, pid) => Reaps(ppid, pid, b, a)
  }

  /** Of the parent's processes that have ended and match, the one in the first slot is reaped; if there is none nothing happens. */
  ghost predicate Reaps(ppid: int, pid: int, b: Look, a: Look) {
    if forall p :: p in b.fates && b.fates[p].Dead? && p in b.parents ==> !(b.parents[p] == ppid && (pid == -1 || p == pid)) then a == b
    else exists p ::
      && p in b.fates && b.fates[p].Dead? && p in b.parents && b.parents[p] == ppid && (pid == -1 || p == pid)
      && p in b.home && b.home[p] < |b.procs|
      && (forall q :: q in b.fates && b.fates[q].Dead? && q in b.parents && q in b.home && b.parents[q] == ppid && (pid == -1 || q == pid) ==>
            b.home[p] <= b.home[q])
      && (var status := Status(b.fates[p].exitCode, b.fates[p].termSig);
          a == b.(fates := b.fates[p := Reaped(ppid, status)], receipts := b.receipts + [Receipt(ppid, p, status)],
                  procs := b.procs[b.home[p] := b.procs[b.home[p]].(state := Free)]))
  }

  lemma AllocEffect(ppid: int, pid: nat, b: Look, a: Look)
    requires |b.procs| == MAX_PROCS
    requires pid == 0 <==> forall i :: 0 <= i < MAX_PROCS ==> b.procs[i].state != Free
    requires pid == 0 ==> a == b
    requires pid != 0 ==> pid == b.nextPid && pid in a.home && a.home[pid] < MAX_PROCS && b.procs[a.home[pid]].state == Free
    requires pid != 0 ==> forall k :: 0 <= k < a.home[pid] ==> b.procs[k].state != Free
    requires pid != 0 ==> a == b.(procs := b.procs[a.home[pid] := Proc(pid, ppid, Ready, 0, 0)], nextPid := pid + 1, home := b.home[pid := a.home[pid]],
                                  fates := b.fates[pid := Alive(a.home[pid])], parents := b.parents[pid := ppid])
    ensures Effect(Allocs(ppid), b, a)
  {
  }

  lemma StartEffect(pid: nat, b: Look, a: Look)
    requires pid in b.home && b.home[pid] < |b.procs|
    requires a == b.(threads := b.threads + {pid}, procs := b.procs[b.home[pid] := b.procs[b.home[pid]].(state := Running)])
    ensures Effect(Starts(pid), b, a)
  {
  }

  lemma DropEffect(pid: nat, b: Look, a: Look)
    requires pid in b.home && b.home[pid] < |b.procs|
    requires a == b.(fates := b.fates[pid := Dropped], procs := b.procs[b.home[pid] := b.procs[b.home[pid]].(state := Free)])
    ensures Effect(Drops(pid), b, a)
  {
  }

  lemma ExitEffect(pid: nat, code: int, b: Look, a: Look)
    requires pid in b.home && b.home[pid] < |b.procs|
    requires a == b.(procs := a.procs, fates := a.fates, ends := if pid in b.ends then b.ends else b.ends[pid := (code, 0)])
    requires var slot, q := b.home[pid], b.procs[b.home[pid]];
             if IsLive(q) then a.procs == b.procs[slot := q.(state := Zombie, exitCode := code)] && a.fates == b.fates[q.pid := Dead(slot, code, 0)]
             else a.procs == b.procs && a.fates == b.fates
    ensures Effect(Exits(pid, code), b, a)
  {
  }

  lemma DieEffect(pid: nat, signum: int, b: Look, a: Look)
    requires pid in b.home && b.home[pid] < |b.procs|
    requires a == b.(ends := b.ends[pid := (0, signum)], fates := b.fates[pid := Dead(b.home[pid], 0, signum)],
                     procs := b.procs[b.home[pid] := b.procs[b.home[pid]].(state := Zombie, exitCode := 0, termSig := signum)])
    ensures Effect(Dies(pid, signum), b, a)
  {
  }

  lemma ReapEffect(ppid: int, pid: int, nohang: bool, answer: Answer, b: Look, a: Look)
    requires b.parents.Keys == b.fates.Keys && forall p :: p in b.fates ==> p in b.home
    requires answer.Child? <==> exists p :: p in b.fates && b.fates[p].Dead? && b.parents[p] == ppid && (pid == -1 || p == pid)
    requires !answer.Child? ==> a == b
    requires answer.Child? ==>
               var p := answer.pid;
               && p in b.fates && b.fates[p].Dead? && b.parents[p] == ppid && (pid == -1 || p == pid)
               && b.home[p] < |b.procs|
               && answer.status == Status(b.fates[p].exitCode, b.fates[p].termSig)
               && a == b.(fates := b.fates[p := Reaped(ppid, answer.status)], receipts := b.receipts + [Receipt(ppid, p, answer.status)],
                          procs := b.procs[b.home[p] := b.procs[b.home[p]].(state := Free)])
               && forall q :: q in b.fates && b.fates[q].Dead? && b.parents[q] == ppid && (pid == -1 || q == pid) ==> b.home[p] <= b.home[q]
    ensures Effect(Waits(ppid, pid, nohang), b, a) && Effect(Looks(ppid, pid), b, a)
  {
  }

  lemma KinKeys(procs: seq<Proc>, nextPid: nat, home: map<nat, nat>, fates: map<nat, Fate>, parents: map<nat, int>, receipts: seq<Receipt>)
    requires Table(procs, nextPid, home, fates) && Kin(procs, fates, parents, receipts)
    ensures parents.Keys == fates.Keys && nextPid !in parents && forall p :: p in fates ==> p in home
    ensures forall k :: 0 <= k < |receipts| ==> receipts[k].pid in parents && parents[receipts[k].pid] == receipts[k].parent
  {
  }

  /** Parents do not change. */
  lemma ParentsStay(step: Step, b: Look, a: Look)
    requires Effect(step, b, a) && b.nextPid !in b.parents
    ensures forall p :: p in b.parents ==> p in a.parents && a.parents[p] == b.parents[p]
  {
  }

  /** A run, step by step; one that cannot happen does nothing. */
  ghost predicate IsTrace(steps: seq<Step>, trace: seq<Look>) {
    && |trace| == |steps| + 1
    && forall k :: 0 <= k < |steps| ==> if CanHappen(steps[k], trace[k]) then Effect(steps[k], trace[k], trace[k + 1]) else trace[k + 1] == trace[k]
  }

  /** Whether a step can happen: a thread is made once, or not at all, and only then can it end. */
  predicate CanHappen(step: Step, b: Look) {
    match step
    case Starts(pid) => pid !in b.threads && IsIn(pid, b)
    case Drops(pid) => pid !in b.threads && IsIn(pid, b)
    case Exits(pid, _) => pid in b.threads
    case Dies(pid, _) => pid in b.threads && IsIn(pid, b)
    case _ => true
  }

  predicate IsIn(pid: nat, b: Look) {
    pid in b.home && b.home[pid] < |b.procs| && b.procs[b.home[pid]].pid == pid && IsLive(b.procs[b.home[pid]])
  }

  /** The process that a step ends; 0 if it ends none. */
  function Ender(step: Step): nat {
    match step
    case Exits(pid, _) => pid
    case Dies(pid, _) => pid
    case _ => 0
  }

  predicate OnceEach(steps: seq<Step>) {
    forall j, k :: 0 <= j < k < |steps| && Ender(steps[j]) != 0 ==> Ender(steps[j]) != Ender(steps[k])
  }

  lemma TraceStarts(steps: seq<Step>, trace: seq<Look>)
    requires steps == [] && |trace| == 1
    ensures IsTrace(steps, trace)
  {
  }

  lemma TraceGrows(steps: seq<Step>, i: nat, trace: seq<Look>, now: Look)
    requires i < |steps| && |trace| == i + 1 && IsTrace(steps[..i], trace)
    requires if CanHappen(steps[i], trace[i]) then Effect(steps[i], trace[i], now) else now == trace[i]
    ensures IsTrace(steps[..i + 1], trace + [now])
  {
    hide CanHappen, Effect;
  }

  lemma NoPidZero(procs: seq<Proc>, nextPid: nat, home: map<nat, nat>, fates: map<nat, Fate>, ends: map<nat, (int, int)>)
    requires Table(procs, nextPid, home, fates) && Honest(fates, ends)
    ensures 0 !in ends
  {
  }

  lemma ToldOnce(receipts: seq<Receipt>, fates: map<nat, Fate>)
    requires Told(receipts, fates)
    ensures forall j, k :: 0 <= j < k < |receipts| ==> receipts[j].pid != receipts[k].pid
  {
  }

  lemma ToldHonest(receipts: seq<Receipt>, fates: map<nat, Fate>, ends: map<nat, (int, int)>)
    requires Told(receipts, fates) && Honest(fates, ends)
    ensures forall k :: 0 <= k < |receipts| ==>
              var r := receipts[k];
              r.pid in ends && r.status == Status(ends[r.pid].0, ends[r.pid].1)
  {
  }

  /** Process 1 makes process 2, which is killed and waited for. */
  method KilledAndReaped() returns (t: Runtime)
    ensures fresh(t) && fresh(t.procs) && t.Valid() && t.nextPid == 3 && 2 in t.home && t.home[2] == 1 && t.ends == map[2 := (0, 9)]
    ensures t.procs[0].state != Free && t.procs[1].state == Free
    ensures t.receipts == [Receipt(1, 2, 9)]
  {
    hide Table, Told, Kin;
    t := new Runtime();
    assert t.procs[0].state == Free;
    var parent := t.Alloc(0);
    assert parent == 1 && t.home[1] == 0;
    assert t.procs[..][1].state == Free && t.procs[..][0].state != Free;
    var child := t.Alloc(1);
    assert child == 2 && t.home[2] == 1;
    t.Terminate(2, 9);
    assert t.procs[..][0].state != Free;
    assert t.fates[2].Dead? && t.parents[2] == 1;
    var answer := t.WaitPid(1, -1, true);
    assert answer == Child(2, 9);
  }

  /**
   Why once: a process that was killed and reaped, and whose thread then still exits, ends another process,
   one that was given its slot meanwhile.
   */
  method SecondExitEndsAnother() returns (t: Runtime)
    ensures t.Valid() && 3 in t.fates && t.fates[3].Dead? && 3 !in t.ends
  {
    hide Table, Told, Kin;
    t := KilledAndReaped();
    var other := t.Alloc(1);
    assert other == 3 && t.home[3] == 1 && t.procs[..][1] == Proc(3, 1, Ready, 0, 0);
    t.Exit(2, 0);
  }

  /** What is told of a process is how its own thread ended. */
  ghost predicate Honest(fates: map<nat, Fate>, ends: map<nat, (int, int)>) {
    && (forall p :: p in ends ==> p in fates)
    && (forall p :: p in fates ==>
          match fates[p]
          case Dead(_, code, sig) => p in ends && ends[p] == (code, sig)
          case Reaped(_, status) => p in ends && status == Status(ends[p].0, ends[p].1)
          case _ => p !in ends)
  }

  lemma HonestAlive(fates: map<nat, Fate>, ends: map<nat, (int, int)>, pid: nat)
    requires Honest(fates, ends) && pid in fates && !fates[pid].Dropped? && pid !in ends
    ensures fates[pid].Alive?
  {
  }

  lemma HonestGrows(fates: map<nat, Fate>, ends: map<nat, (int, int)>, pid: nat)
    requires Honest(fates, ends) && pid !in fates
    ensures forall i :: Honest(fates[pid := Alive(i)], ends)
  {
  }

  lemma HonestDrops(fates: map<nat, Fate>, ends: map<nat, (int, int)>, pid: nat)
    requires Honest(fates, ends) && pid in fates && fates[pid].Alive?
    ensures Honest(fates[pid := Dropped], ends)
  {
  }

  lemma HonestEnds(fates: map<nat, Fate>, ends: map<nat, (int, int)>, pid: nat, i: nat, code: int, sig: int)
    requires Honest(fates, ends) && pid in fates && fates[pid].Alive?
    ensures Honest(fates[pid := Dead(i, code, sig)], ends[pid := (code, sig)])
  {
  }

  lemma HonestReaps(fates: map<nat, Fate>, ends: map<nat, (int, int)>)
    requires Honest(fates, ends)
    ensures forall p, parent :: p in fates && fates[p].Dead? ==>
              Honest(fates[p := Reaped(parent, Status(fates[p].exitCode, fates[p].termSig))], ends)
  {
  }

  lemma TableHome(procs: seq<Proc>, nextPid: nat, home: map<nat, nat>, fates: map<nat, Fate>, pid: nat)
    requires Table(procs, nextPid, home, fates) && pid in fates
    ensures pid in home && home[pid] < MAX_PROCS
    ensures fates[pid].Alive? ==> procs[home[pid]].pid == pid && IsLive(procs[home[pid]])
  {
    assert FateAgrees(pid, procs, home, fates[pid]);
  }

  lemma TableFresh(procs: seq<Proc>, nextPid: nat, home: map<nat, nat>, fates: map<nat, Fate>)
    requires Table(procs, nextPid, home, fates)
    ensures nextPid !in fates
  {
  }

  predicate IsChildOf(p: Proc, ppid: int, pid: int) {
    p.state != Free && p.ppid == ppid && (pid == -1 || p.pid == pid)
  }

  predicate IsZombieOf(p: Proc, ppid: int, pid: int) {
    p.state == Zombie && p.ppid == ppid && (pid == -1 || p.pid == pid)
  }

  lemma KinAlloc(procs: seq<Proc>, fates: map<nat, Fate>, parents: map<nat, int>, receipts: seq<Receipt>, pid: nat, i: nat, ppid: int)
    requires Kin(procs, fates, parents, receipts) && pid !in fates && i < |procs|
    ensures Kin(procs[i := Proc(pid, ppid, Ready, 0, 0)], fates[pid := Alive(i)], parents[pid := ppid], receipts)
  {
  }

  lemma KinSet(procs: seq<Proc>, fates: map<nat, Fate>, parents: map<nat, int>, receipts: seq<Receipt>, i: nat, q: Proc, fate: Fate)
    requires Kin(procs, fates, parents, receipts) && i < |procs| && procs[i].state != Free && q.pid == procs[i].pid && q.ppid == procs[i].ppid
    ensures q.pid in parents && parents[q.pid] == q.ppid
    ensures Kin(procs[i := q], fates[q.pid := fate], parents, receipts)
  {
  }

  lemma KinReap(procs: seq<Proc>, fates: map<nat, Fate>, parents: map<nat, int>, receipts: seq<Receipt>, i: nat, fate: Fate, status: nat)
    requires Kin(procs, fates, parents, receipts) && i < |procs| && procs[i].state != Free
    ensures var q := procs[i];
            Kin(procs[i := q.(state := Free)], fates[q.pid := fate], parents, receipts + [Receipt(q.ppid, q.pid, status)])
  {
    KinSet(procs, fates, parents, receipts, i, procs[i].(state := Free), fate);
  }

  lemma TableSlot(procs: seq<Proc>, nextPid: nat, home: map<nat, nat>, fates: map<nat, Fate>, i: nat)
    requires Table(procs, nextPid, home, fates) && i < MAX_PROCS
    ensures SlotAgrees(procs[i], i, fates)
    ensures procs[i].state != Free ==> procs[i].pid in home && home[procs[i].pid] == i
  {
    assert SlotAgrees(procs[i], i, fates);
    if procs[i].state != Free {
      assert FateAgrees(procs[i].pid, procs, home, fates[procs[i].pid]);
    }
  }

  lemma SameFate(procs: seq<Proc>, nextPid: nat, home: map<nat, nat>, fates: map<nat, Fate>, pid: nat)
    requires Table(procs, nextPid, home, fates) && pid in fates && fates[pid].Alive? && pid in home
    ensures fates[pid := Alive(home[pid])] == fates
  {
    assert FateAgrees(pid, procs, home, fates[pid]);
  }

  /** The zombies that a parent may reap, from the slots and from what has become of the pids. */
  lemma ZombiesAre(procs: seq<Proc>, nextPid: nat, home: map<nat, nat>, fates: map<nat, Fate>, parents: map<nat, int>, receipts: seq<Receipt>,
                   ppid: int, pid: int)
    requires Table(procs, nextPid, home, fates) && Kin(procs, fates, parents, receipts)
    ensures forall i :: 0 <= i < MAX_PROCS && IsZombieOf(procs[i], ppid, pid) ==>
              var p := procs[i].pid; p in fates && fates[p].Dead? && home[p] == i && parents[p] == ppid && (pid == -1 || p == pid)
    ensures forall p :: p in fates ==> p in parents && p in home && home[p] < MAX_PROCS
    ensures forall p :: p in fates && fates[p].Dead? && parents[p] == ppid && (pid == -1 || p == pid) ==> IsZombieOf(procs[home[p]], ppid, pid)
  {
    forall i | 0 <= i < MAX_PROCS && IsZombieOf(procs[i], ppid, pid)
      ensures var p := procs[i].pid; p in fates && fates[p].Dead? && home[p] == i && parents[p] == ppid && (pid == -1 || p == pid)
    {
      assert SlotAgrees(procs[i], i, fates);
      assert FateAgrees(procs[i].pid, procs, home, fates[procs[i].pid]);
    }
    forall p | p in fates && fates[p].Dead? && parents[p] == ppid && (pid == -1 || p == pid) ensures IsZombieOf(procs[home[p]], ppid, pid) {
      assert FateAgrees(p, procs, home, fates[p]);
    }
  }

  lemma ChildrenAre(procs: seq<Proc>, nextPid: nat, home: map<nat, nat>, fates: map<nat, Fate>, parents: map<nat, int>, receipts: seq<Receipt>,
                    ppid: int, pid: int)
    requires Table(procs, nextPid, home, fates) && Kin(procs, fates, parents, receipts)
    ensures (exists i :: 0 <= i < MAX_PROCS && IsChildOf(procs[i], ppid, pid)) <==>
            exists p :: p in fates && (fates[p].Alive? || fates[p].Dead?) && parents[p] == ppid && (pid == -1 || p == pid)
  {
    forall i | 0 <= i < MAX_PROCS && IsChildOf(procs[i], ppid, pid)
      ensures var p := procs[i].pid; p in fates && (fates[p].Alive? || fates[p].Dead?) && parents[p] == ppid && (pid == -1 || p == pid)
    {
      assert SlotAgrees(procs[i], i, fates);
    }
    forall p | p in fates && (fates[p].Alive? || fates[p].Dead?) && parents[p] == ppid && (pid == -1 || p == pid)
      ensures IsChildOf(procs[home[p]], ppid, pid)
    {
      assert FateAgrees(p, procs, home, fates[p]);
    }
  }

  /** One process changes, and its fate with it. */
  lemma TableSet(procs: seq<Proc>, nextPid: nat, home: map<nat, nat>, fates: map<nat, Fate>, pid: nat, q: Proc, fate: Fate)
    requires Table(procs, nextPid, home, fates) && pid in fates && (fates[pid].Alive? || fates[pid].Dead?)
    requires q.pid == pid
    requires match fate
             case Alive(i) => i == home[pid] && IsLive(q) && q.termSig == 0
             case Dead(i, code, sig) => i == home[pid] && q.state == Zombie && q.exitCode == code && q.termSig == sig
             case _ => q.state == Free
    ensures Table(procs[home[pid] := q], nextPid, home, fates[pid := fate])
  {
    var procs', fates' := procs[home[pid] := q], fates[pid := fate];
    assert FateAgrees(pid, procs, home, fates[pid]);
    forall k | 0 <= k < MAX_PROCS ensures SlotAgrees(procs'[k], k, fates') {
      assert SlotAgrees(procs[k], k, fates);
    }
    forall p | p in fates' ensures FateAgrees(p, procs', home, fates'[p]) {
      assert FateAgrees(p, procs, home, fates[p]);
    }
  }

  lemma TableSame(procs: seq<Proc>, nextPid: nat, home: map<nat, nat>, fates: map<nat, Fate>, i: nat, q: Proc)
    requires Table(procs, nextPid, home, fates) && i < MAX_PROCS && IsLive(procs[i]) && q == procs[i].(state := Running)
    ensures Table(procs[i := q], nextPid, home, fates)
  {
    var pid := procs[i].pid;
    assert SlotAgrees(procs[i], i, fates);
    assert FateAgrees(pid, procs, home, fates[pid]);
    TableSet(procs, nextPid, home, fates, pid, q, Alive(i));
    assert fates[pid := Alive(i)] == fates;
  }

  lemma ToldSet(receipts: seq<Receipt>, fates: map<nat, Fate>, pid: nat, fate: Fate)
    requires Told(receipts, fates) && pid in fates && !fates[pid].Reaped? && !fate.Reaped?
    ensures Told(receipts, fates[pid := fate])
  {
  }

  lemma ToldReap(receipts: seq<Receipt>, fates: map<nat, Fate>, parent: int, pid: nat, status: nat)
    requires Told(receipts, fates) && pid in fates && !fates[pid].Reaped?
    ensures Told(receipts + [Receipt(parent, pid, status)], fates[pid := Reaped(parent, status)])
  {
    var more := receipts + [Receipt(parent, pid, status)];
    var fates' := fates[pid := Reaped(parent, status)];
    forall p | p in fates' && fates'[p].Reaped?
      ensures exists k :: 0 <= k < |more| && more[k].pid == p
    {
      if p == pid {
        assert more[|receipts|].pid == p;
      } else {
        var k :| 0 <= k < |receipts| && receipts[k].pid == p;
        assert more[k].pid == p;
      }
    }
  }

  lemma TableAlloc(procs: seq<Proc>, nextPid: nat, home: map<nat, nat>, fates: map<nat, Fate>, i: nat, ppid: int)
    requires Table(procs, nextPid, home, fates) && i < MAX_PROCS && procs[i].state == Free
    ensures Table(procs[i := Proc(nextPid, ppid, Ready, 0, 0)], nextPid + 1, home[nextPid := i], fates[nextPid := Alive(i)])
  {
    var procs', home', fates' := procs[i := Proc(nextPid, ppid, Ready, 0, 0)], home[nextPid := i], fates[nextPid := Alive(i)];
    forall k | 0 <= k < MAX_PROCS ensures SlotAgrees(procs'[k], k, fates') {
      assert SlotAgrees(procs[k], k, fates);
    }
    forall p | p in fates' ensures FateAgrees(p, procs', home', fates'[p]) {
      if p != nextPid {
        assert FateAgrees(p, procs, home, fates[p]);
      }
    }
  }

  lemma ToldAlloc(receipts: seq<Receipt>, fates: map<nat, Fate>, pid: nat, i: nat)
    requires Told(receipts, fates) && pid !in fates
    ensures Told(receipts, fates[pid := Alive(i)])
  {
  }
}
