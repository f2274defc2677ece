/** The kernel entries of the scheduler and of IPC as assignments to the kernel's variables. */
module KernelEntry {
  import opened Common
  import opened BitWords
  import opened Mmu
  import opened FlatMemory
  import opened Lists
  import opened TailQueue
  import opened Scheduler
  import PT = PageTables

  class Cpu {
    var envs: seq<Env>
    var free: seq<nat>
    var q: Queue
    var cur: Option<nat>
    var count: int
    var ids: nat
    var mem: PT.Abs
    // what the links are meant to spell; the code does not read it
    ghost var list: seq<nat>

    ghost function St(): State
      reads this
    {
      State(envs, free, list, q, cur, count, ids, mem)
    }

    /** env_init */
    constructor (mem: PT.Abs)
      ensures St() == Boot(mem) && Inv(St())
    {
      envs := seq(NENV, _ => Env(0, 0, Free, 0, 0, 0, false, 0, 0, 0, 0));
      free := seq(NENV, i => i);
      q := EmptyQueue();
      cur, count, ids, this.mem, list := None, 0, 0, mem, [];
      new;
      BootInv(mem);
    }

    /** TAILQ_REMOVE */
    method ListRemove(x: nat)
      requires Wf(q) && x < |q.next|
      modifies this`q, this`list
      ensures q == Remove(old(q), x) && list == Drop(old(list), x)
    {
      q := Remove(q, x);
      list := Drop(list, x);
    }

    /** TAILQ_INSERT_TAIL */
    method ListAppend(x: nat)
      requires Wf(q) && x < |q.next|
      modifies this`q, this`list
      ensures q == InsertTail(old(q), x) && list == old(list) + [x]
    {
      q := InsertTail(q, x);
      list := list + [x];
    }

    /** schedule; ok is false when the kernel stops. Only the links decide who runs. */
    method Reschedule(giveUp: bool) returns (ok: bool)
      requires Shaped(St())
      modifies this`list, this`q, this`count, this`cur, this`envs
      ensures ok <==> Schedule(old(St()), giveUp).Some?
      ensures ok ==> St() == Schedule(old(St()), giveUp).value
    {
      hide Drop, Remove, InsertTail;
      var e := cur;
      if giveUp || count <= 0 || e.None? || envs[e.value].status != Runnable {
        if e.Some? {
          if Wild(q, e.value) {
            return false;
          }
          ListRemove(e.value);
          if envs[e.value].status == Runnable {
            ListAppend(e.value);
          }
        }
        assert q == RequeueLinks(old(St())) && list == Requeue(old(St()));
        if q.first.None? {
          return false;
        }
        e := q.first;
        count := AsInt(envs[e.value].pri);
      }
      count := count - 1;
      if envs[e.value].status != Runnable {
        return false;
      }
      cur := e;
      envs := envs[e.value := envs[e.value].(runs := envs[e.value].runs + 1)];
      return true;
    }

    /** sys_ipc_recv */
    method IpcRecv(dstva: nat) returns (ok: bool)
      requires Inv(St()) && cur.Some?
      modifies this`list, this`q, this`count, this`cur, this`envs
      ensures ok <==> Step(old(St()), Recv(dstva)).Some?
      ensures ok ==> St() == Step(old(St()), Recv(dstva)).value
      ensures ok && Removable(old(St()), old(cur).value) ==> Inv(St())
    {
      hide Schedule, NoDup, Repr, Harmless, Remove, InsertTail, Drop, MemInv;
      ghost var s := St();
      if dstva != 0 && IllegalVa(dstva) {
        return true;
      }
      var c := cur.value;
      envs := envs[c := envs[c].(recving := true)];
      envs := envs[c := envs[c].(dstva := dstva)];
      envs := envs[c := envs[c].(status := NotRunnable)];
      if Wild(q, c) {
        return false;
      }
      ListRemove(c);
      assert St() == Block(s, dstva);
      if Removable(s, c) {
        BlockKeepsInv(s, dstva);
        ScheduleKeepsInv(St(), true);
      }
      ok := Reschedule(true);
    }

    /** sys_ipc_try_send; t is the page that page_alloc would hand out for a table. */
    method IpcTrySend(envid: nat, value: nat, srcva: nat, perm: nat, t: nat) returns (code: Code)
      requires Inv(St()) && cur.Some?
      modifies this`list, this`q, this`envs, this`mem
      ensures (St(), code) == SysIpcTrySend(old(St()), envid, value, srcva, perm, t)
      ensures Inv(St())
    {
      hide Repr, InsertTail, MemInv, FreePages, Wf;
      SendKeepsInv(St(), envid, value, srcva, perm, t);
      if srcva != 0 && IllegalVa(srcva) {
        return EInval;
      }
      var r := EnvId2Env(envs, cur.value, envid, false);
      if r.None? {
        return EBadEnv;
      }
      var e := r.value;
      if !envs[e].recving {
        return ENotRecv;
      }
      var from := envs[cur.value].id;
      envs := envs[e := envs[e].(ipcValue := value, ipcFrom := from, ipcPerm := OrBit(perm, 7), recving := false)];
      envs := envs[e := envs[e].(status := Runnable)];
      ListAppend(e);
      assert envs == old(envs)[e := envs[e]];
      if srcva != 0 {
        var k := Key(envs[cur.value].pgdir, srcva);
        if k !in mem.pt {
          return EInval;
        }
        var inserted := MapPage(mem, Key(envs[e].pgdir, envs[e].dstva), Ppn(mem.pt[k]), perm, t);
        if inserted.None? {
          return ENoMem;
        }
        mem := inserted.value;
      }
      return Ok;
    }

    /** sys_set_env_status. The invariant survives exactly if no receiver is made runnable. */
    method SetEnvStatus(envid: nat, status: EnvStatus) returns (code: Code)
      requires Inv(St()) && cur.Some?
      modifies this`list, this`q, this`envs
      ensures (St(), code) == SysSetEnvStatus(old(St()), envid, status)
      ensures StatusAllowed(old(St()), SetStatus(envid, status)) ==> Inv(St())
    {
      hide Repr, Remove, InsertTail, Drop, MemInv, Wf, NoDup;
      if StatusAllowed(St(), SetStatus(envid, status)) { SetStatusKeepsInv(St(), envid, status); }
      if status != Runnable && status != NotRunnable {
        return EInval;
      }
      var r := EnvId2Env(envs, cur.value, envid, true);
      if r.None? {
        return EBadEnv;
      }
      var e := r.value;
      if envs[e].status != status {
        if status == Runnable {
          ListAppend(e);
        } else {
          ListRemove(e);
        }
      }
      envs := envs[e := envs[e].(status := status)];
      return Ok;
    }

    /** sys_env_destroy */
    method EnvDestroy(envid: nat) returns (ok: bool)
      requires Inv(St()) && cur.Some?
      modifies this
      ensures ok <==> Step(old(St()), Destroy(envid)).Some?
      ensures ok ==> St() == Step(old(St()), Destroy(envid)).value
      ensures ok && Allowed(old(St()), Destroy(envid)) ==> Inv(St())
    {
      hide Schedule, NoDup, Repr, Harmless, Remove, InsertTail, Drop, MemInv;
      ghost var s := St();
      if Allowed(s, Destroy(envid)) { StepKeepsInv(s, Destroy(envid)); }
      var r := EnvId2Env(envs, cur.value, envid, true);
      if r.None? {
        return true;
      }
      var e := r.value;
      mem := DropDirectory(mem, envs[e].pgdir);
      envs := envs[e := envs[e].(status := Free)];
      free := [e] + free;
      if Wild(q, e) {
        return false;
      }
      ListRemove(e);
      assert St() == FreeEnv(s, e);
      ok := true;
      if cur == Some(e) {
        cur := None;
        ok := Reschedule(true);
      }
    }
  }
}
