/** The repeater process: its tables, its counter and its event fifo, changed in place. */
module RepeaterProcess {
  import opened Tables
  import opened Broker
  import opened EventQueue
  import opened EventFifo
  import opened SlotTable

  function Posted(q: Queue<Event>, es: seq<Event>, on: bool): Queue<Event> {
    if on then PostAll(q, es) else q
  }

  lemma PostedAppend(q: Queue<Event>, a: seq<Event>, b: seq<Event>, on: bool)
    ensures Posted(q, a + b, on) == Posted(Posted(q, a, on), b, on)
  {
    PostAllAppend(q, a, b);
  }

  lemma PostedOne(q: Queue<Event>, e: Event)
    ensures PostAll(q, [e]) == Post(q, e)
  {
    var es := [e];
    assert es[..|es| - 1] == [];
  }

  lemma PostedNone(q: Queue<Event>, on: bool)
    ensures Posted(q, [], on) == q
  {
  }

  lemma NoRoom(t: Table, code: int, socket: int)
    requires !Has(t, 0)
    ensures Add(t, code, socket) == t
  {
  }

  lemma ActivateKeepsSocket(t: Table, code: int)
    requires Has(t, code)
    ensures |Activate(t, code)| == |t| && Activate(t, code)[Find(t, code)].socket == t[Find(t, code)].socket
  {
  }

  class Repeater {
    const servers: Connections
    const viewers: Connections
    const children: Children
    const fifo: Fifo<Event>
    const useEventInterface: bool
    var mode1ConnCode: int

    ghost predicate Valid()
      reads this, fifo
    {
      && servers.Valid() && viewers.Valid() && children.Valid() && fifo.Valid()
      && servers.slots != viewers.slots
      && servers.slots.Length == viewers.slots.Length == children.procs.Length
    }

    ghost function State(): Broker.State
      reads this, servers.slots, viewers.slots, children.procs
    {
      Broker.State(servers.slots[..], viewers.slots[..], children.procs[..], mode1ConnCode)
    }

    ghost function Queue(): Queue<Event>
      requires Valid()
      reads this, fifo, fifo.ring
    {
      fifo.Value()
    }

    constructor (maxSessions: nat, useEventInterface: bool)
      requires maxSessions <= MAX_SESSIONS_MAX
      ensures Valid() && State() == Initial(maxSessions) && Queue() == Empty()
      ensures fresh(servers.slots) && fresh(viewers.slots) && fresh(children.procs) && fresh(fifo) && fresh(fifo.ring)
    {
      servers := new Connections(maxSessions);
      viewers := new Connections(maxSessions);
      children := new Children(maxSessions);
      fifo := new Fifo();
      this.useEventInterface := useEventInterface;
      mode1ConnCode := 0;
    }

    method Notify(e: Event)
      requires Valid()
      modifies fifo, fifo.ring
      ensures Valid() && Queue() == Posted(old(Queue()), [e], useEventInterface)
    {
      if useEventInterface {
        var accepted := fifo.Send(e);
        PostedOne(old(Queue()), e);
      }
    }

    method ForkRepeater(server: int, viewer: int, code: int, pid: int)
      modifies children.procs
      ensures children.procs[..] == AddProc(old(children.procs[..]), Proc(code, pid, server, viewer))
    {
      children.AddList(Proc(code, pid, server, viewer));
    }

    /** Mode 2, from a viewer: listed is the outcome of the allowed-code check, pid that of a fork. */
    method AcceptViewer(code: int, connection: int, pid: int, listed: bool)
      requires Valid() && code != 0
      modifies viewers.slots, servers.slots, children.procs, fifo, fifo.ring
      ensures Valid() && var o := ViewerArrives(old(State()), code, connection, pid, listed);
              State() == o.state && Queue() == Posted(old(Queue()), o.events, useEventInterface)
    {
      hide Add, Activate, AddProc, PostAll, Post, Round, Fifo.Value, Fifo.Contents;
      PostedNone(Queue(), useEventInterface);
      var duplicate := viewers.FindList(code);
      if duplicate != UNKNOWN_REPINFO_IND || !listed {
        return;
      }
      var viewerInd := viewers.AddList(connection, code);
      if viewerInd == -1 {
        NoRoom(old(viewers.slots[..]), code, connection);
        return;
      }
      Notify(ViewerConnect(viewerInd, code));
      var serverInd := servers.FindList(code);
      if serverInd != UNKNOWN_REPINFO_IND {
        viewers.SetActive(code);
        servers.SetActive(code);
        ActivateKeepsSocket(old(servers.slots[..]), code);
        var server := servers.slots[serverInd].socket;
        ForkRepeater(server, connection, code, pid);
        Notify(SessionStart(serverInd, viewerInd, code));
        ghost var first, second := ViewerConnect(viewerInd, code), SessionStart(serverInd, viewerInd, code);
        PostedAppend(old(Queue()), [first], [second], useEventInterface);
        assert [first] + [second] == [first, second];
      }
    }

    method AcceptServer(code: int, connection: int, pid: int, listed: bool)
      requires Valid() && code != 0
      modifies viewers.slots, servers.slots, children.procs, fifo, fifo.ring
      ensures Valid() && var o := ServerArrives(old(State()), code, connection, pid, listed);
              State() == o.state && Queue() == Posted(old(Queue()), o.events, useEventInterface)
    {
      hide Add, Activate, AddProc, PostAll, Post, Round, Fifo.Value, Fifo.Contents;
      PostedNone(Queue(), useEventInterface);
      var duplicate := servers.FindList(code);
      if duplicate != UNKNOWN_REPINFO_IND || !listed {
        return;
      }
      var serverInd := servers.AddList(connection, code);
      if serverInd == -1 {
        NoRoom(old(servers.slots[..]), code, connection);
        return;
      }
      Notify(ServerConnect(serverInd, code));
      var viewerInd := viewers.FindList(code);
      if viewerInd != UNKNOWN_REPINFO_IND {
        servers.SetActive(code);
        viewers.SetActive(code);
        ActivateKeepsSocket(old(viewers.slots[..]), code);
        var viewer := viewers.slots[viewerInd].socket;
        ForkRepeater(connection, viewer, code, pid);
        Notify(SessionStart(serverInd, viewerInd, code));
        ghost var first, second := ServerConnect(serverInd, code), SessionStart(serverInd, viewerInd, code);
        PostedAppend(old(Queue()), [first], [second], useEventInterface);
        assert [first] + [second] == [first, second];
      }
    }

    /** One end of a Mode 1 session, active from the start. */
    method AddMode1End(table: Connections, connection: int) returns (index: int)
      modifies table.slots
      ensures table.slots[..] == AddActive(old(table.slots[..]), mode1ConnCode, connection)
      ensures index == if Has(old(table.slots[..]), 0) then Find(old(table.slots[..]), 0) else -1
    {
      index := table.AddList(connection, mode1ConnCode);
      if index != -1 {
        table.SetActive(mode1ConnCode);
      }
    }

    method AnnounceMode1(serverInd: nat, viewerInd: nat, code: int)
      requires Valid()
      modifies fifo, fifo.ring
      ensures Valid()
      ensures Queue() == Posted(old(Queue()), [ViewerConnect(viewerInd, code), ServerConnect(serverInd, code),
                                               SessionStart(serverInd, viewerInd, code)], useEventInterface)
    {
      hide Fifo.Value, Fifo.Contents, Post, PostAll, Posted;
      var a, b, c := ViewerConnect(viewerInd, code), ServerConnect(serverInd, code), SessionStart(serverInd, viewerInd, code);
      Notify(a);
      Notify(b);
      Notify(c);
      PostedAppend(old(Queue()), [a], [b], useEventInterface);
      PostedAppend(old(Queue()), [a] + [b], [c], useEventInterface);
      assert [a] + [b] + [c] == [a, b, c];
    }

    /** Mode 1: the viewer named a server, and the connection to it succeeded. */
    method AcceptMode1(connection: int, server: int, pid: int)
      requires Valid()
      modifies this`mode1ConnCode, viewers.slots, servers.slots, children.procs, fifo, fifo.ring
      ensures Valid() && var o := Mode1Arrives(old(State()), connection, server, pid);
              State() == o.state && Queue() == Posted(old(Queue()), o.events, useEventInterface)
    {
      hide AddActive, AddProc, PostAll, Post, Round, Fifo.Value, Fifo.Contents;
      PostedNone(Queue(), useEventInterface);
      mode1ConnCode := mode1ConnCode - 1;
      if mode1ConnCode < MIN_INVENTED_CODE {
        mode1ConnCode := -1;
      }
      var viewerInd := AddMode1End(viewers, connection);
      var serverInd := AddMode1End(servers, server);
      if serverInd != -1 && viewerInd != -1 {
        ForkRepeater(server, connection, mode1ConnCode, pid);
        AnnounceMode1(serverInd, viewerInd, mode1ConnCode);
      }
    }

    /** One slot of one table; gone is the outcome of the age and peer checks. */
    method ConnectionRemover(fromViewers: bool, index: nat, gone: bool)
      requires Valid() && index < viewers.slots.Length
      modifies viewers.slots, servers.slots, fifo, fifo.ring
      ensures Valid() && var o := if fromViewers then SweepViewer(old(State()), index, if gone then {index} else {})
                                  else SweepServer(old(State()), index, if gone then {index} else {});
              State() == o.state && Queue() == Posted(old(Queue()), o.events, useEventInterface)
    {
      var table := if fromViewers then viewers else servers;
      var info := table.slots[index];
      if info.code != 0 && !info.active && gone {
        Notify(if fromViewers then ViewerDisconnect(index, info.code) else ServerDisconnect(index, info.code));
        table.RemoveList(info.code);
      }
    }

    method RemoveOldOrBrokenConnections(goneViewers: set<nat>, goneServers: set<nat>)
      requires Valid()
      modifies viewers.slots, servers.slots, fifo, fifo.ring
      ensures Valid() && var o := Sweep(old(State()), viewers.slots.Length, goneViewers, goneServers);
              State() == o.state && Queue() == Posted(old(Queue()), o.events, useEventInterface)
    {
      ghost var s, q := State(), Queue();
      for i := 0 to viewers.slots.Length
        invariant Valid()
        invariant State() == Sweep(s, i, goneViewers, goneServers).state
        invariant Queue() == Posted(q, Sweep(s, i, goneViewers, goneServers).events, useEventInterface)
      {
        ghost var before := Sweep(s, i, goneViewers, goneServers);
        ghost var a := SweepViewer(before.state, i, goneViewers);
        ghost var b := SweepServer(a.state, i, goneServers);
        ConnectionRemover(true, i, i in goneViewers);
        ConnectionRemover(false, i, i in goneServers);
        PostedAppend(Posted(q, before.events, useEventInterface), a.events, b.events, useEventInterface);
        PostedAppend(q, before.events, a.events + b.events, useEventInterface);
      }
    }

    method CleanUpAfterExit(exitCode: int, pid: int)
      requires Valid()
      modifies viewers.slots, servers.slots, children.procs, fifo, fifo.ring
      ensures Valid() && var o := ChildExits(old(State()), exitCode, pid);
              State() == o.state && Queue() == Posted(old(Queue()), o.events, useEventInterface)
    {
      var index := children.FindList(pid);
      if index != UNKNOWN_REPINFO_IND {
        var code := children.procs[index].code;
        var serverInd := servers.FindList(code);
        var viewerInd := viewers.FindList(code);
        if serverInd != UNKNOWN_REPINFO_IND && viewerInd != UNKNOWN_REPINFO_IND {
          children.RemoveList(pid);
          Notify(SessionEnd(serverInd, viewerInd, code));
          if 1 <= exitCode <= 5 {
            servers.RemoveList(code);
            viewers.RemoveList(code);
          }
        }
      }
    }

    /** exits holds what waitpid reports for the entries whose child has ended. */
    method CleanUpAfterRepeaterProcs(exits: map<nat, int>)
      requires Valid()
      modifies viewers.slots, servers.slots, children.procs, fifo, fifo.ring
      ensures Valid() && var o := Reap(old(State()), children.procs.Length, exits);
              State() == o.state && Queue() == Posted(old(Queue()), o.events, useEventInterface)
    {
      ghost var s, q := State(), Queue();
      for i := 0 to children.procs.Length
        invariant Valid()
        invariant State() == Reap(s, i, exits).state
        invariant Queue() == Posted(q, Reap(s, i, exits).events, useEventInterface)
      {
        ghost var before := Reap(s, i, exits);
        ghost var o := ReapSlot(before.state, i, exits);
        if children.procs[i].code != 0 && i in exits {
          CleanUpAfterExit(exits[i], children.procs[i].pid);
        }
        PostedAppend(q, before.events, o.events, useEventInterface);
      }
    }
  }
}
