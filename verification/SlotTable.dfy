/** The tables in memory: arrays changed in place by loops that scan from the front. */
module SlotTable {
  import opened Tables

  const MAX_SESSIONS_MAX := 1000
  const UNKNOWN_REPINFO_IND := 999999

  /** servers[] or viewers[]. */
  class Connections {
    const slots: array<Slot>

    ghost predicate Valid() {
      slots.Length <= MAX_SESSIONS_MAX
    }

    constructor (maxSessions: nat)
      requires maxSessions <= MAX_SESSIONS_MAX
      ensures Valid() && fresh(slots) && slots.Length == maxSessions
      ensures slots[..] == seq(maxSessions, i => Slot(0, false, 0))
    {
      slots := new Slot[maxSessions](i => Slot(0, false, 0));
    }

    method AddList(socket: int, code: int) returns (index: int)
      modifies slots
      ensures slots[..] == Add(old(slots[..]), code, socket)
      ensures index == if Has(old(slots[..]), 0) then Find(old(slots[..]), 0) else -1
    {
      for i := 0 to slots.Length
        invariant slots[..] == old(slots[..])
        invariant forall k :: 0 <= k < i ==> slots[k].code != 0
      {
        if slots[i].code == 0 {
          assert Find(slots[..], 0) == i;
          slots[i] := Slot(code, false, socket);
          return i;
        }
      }
      return -1;
    }

    method RemoveList(code: int)
      modifies slots
      ensures slots[..] == Remove(old(slots[..]), code)
    {
      for i := 0 to slots.Length
        invariant slots[..] == old(slots[..])
        invariant forall k :: 0 <= k < i ==> slots[k].code != code
      {
        if slots[i].code == code {
          assert Find(slots[..], code) == i;
          slots[i] := slots[i].(code := 0, active := false);
          return;
        }
      }
    }

    method SetActive(code: int)
      modifies slots
      ensures slots[..] == Activate(old(slots[..]), code)
    {
      for i := 0 to slots.Length
        invariant slots[..] == old(slots[..])
        invariant forall k :: 0 <= k < i ==> slots[k].code != code
      {
        if slots[i].code == code {
          assert Find(slots[..], code) == i;
          slots[i] := slots[i].(active := true);
          return;
        }
      }
    }

    method FindList(code: int) returns (index: nat)
      requires Valid()
      ensures index == if Has(slots[..], code) then Find(slots[..], code) else UNKNOWN_REPINFO_IND
    {
      for i := 0 to slots.Length
        invariant forall k :: 0 <= k < i ==> slots[k].code != code
      {
        if slots[i].code == code {
          assert slots[..][i].code == code;
          return i;
        }
      }
      return UNKNOWN_REPINFO_IND;
    }
  }

  /** repeaterProcs[]. */
  class Children {
    const procs: array<Proc>

    ghost predicate Valid() {
      procs.Length <= MAX_SESSIONS_MAX
    }

    constructor (maxSessions: nat)
      requires maxSessions <= MAX_SESSIONS_MAX
      ensures Valid() && fresh(procs) && procs.Length == maxSessions
      ensures procs[..] == seq(maxSessions, i => Proc(0, 0, 0, 0))
    {
      procs := new Proc[maxSessions](i => Proc(0, 0, 0, 0));
    }

    method AddList(p: Proc)
      modifies procs
      ensures procs[..] == AddProc(old(procs[..]), p)
    {
      for i := 0 to procs.Length
        invariant procs[..] == old(procs[..])
        invariant forall k :: 0 <= k < i ==> procs[k].code != 0
      {
        if procs[i].code == 0 {
          assert FindProc(procs[..], 0) == i;
          procs[i] := p;
          return;
        }
      }
    }

    method RemoveList(pid: int)
      modifies procs
      ensures procs[..] == RemoveProc(old(procs[..]), pid)
    {
      for i := 0 to procs.Length
        invariant procs[..] == old(procs[..])
        invariant forall k :: 0 <= k < i ==> procs[k].pid != pid
      {
        if procs[i].pid == pid {
          assert FindPid(procs[..], pid) == i;
          procs[i] := procs[i].(code := 0, pid := 0);
          return;
        }
      }
    }

    method FindList(pid: int) returns (index: nat)
      requires Valid()
      ensures index == if FindPid(procs[..], pid) < procs.Length then FindPid(procs[..], pid) else UNKNOWN_REPINFO_IND
    {
      for i := 0 to procs.Length
        invariant forall k :: 0 <= k < i ==> procs[k].pid != pid
      {
        if procs[i].pid == pid {
          assert procs[..][i].pid == pid;
          return i;
        }
      }
      return UNKNOWN_REPINFO_IND;
    }
  }
}
