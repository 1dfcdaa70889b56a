/** The broker with its event interface, and the facts the repeater takes for granted. */
module BrokerSystem {
  import opened Tables
  import opened Broker
  import opened BrokerRuns
  import opened BrokerLog
  import opened EventQueue

  // Every child is listed

  /** Both ends are active under the code, and the child relays between exactly their sockets. */
  ghost predicate Listed(t: State, si: nat, vi: nat, code: int, pid: int) {
    && si < |t.servers| && t.servers[si].code == code && t.servers[si].active
    && vi < |t.viewers| && t.viewers[vi].code == code && t.viewers[vi].active
    && Proc(code, pid, t.servers[si].socket, t.viewers[vi].socket) in t.procs
  }

  lemma ViewerSessionIsListed(s: State, leaked: seq<int>, code: int, socket: int, pid: int, listed: bool, si: nat, vi: nat)
    requires Inv(s, leaked) && StepOk(s, Viewer(code, socket, pid, listed))
    requires SessionStart(si, vi, code) in ViewerArrives(s, code, socket, pid, listed).events
    ensures Listed(ViewerArrives(s, code, socket, pid, listed).state, si, vi, code, pid)
  {
    assert PairedBut(s, leaked, code);
    AddKeeps(s, code, socket, true);
    AddProper(s.viewers, code, socket);
    hide Inv, Add, Find, FindProc, FindPid, Paired;
    var u := s.(viewers := Add(s.viewers, code, socket));
    StartListed(u, Proc(code, pid, u.servers[si].socket, socket));
  }

  lemma ServerSessionIsListed(s: State, leaked: seq<int>, code: int, socket: int, pid: int, listed: bool, si: nat, vi: nat)
    requires Inv(s, leaked) && StepOk(s, Server(code, socket, pid, listed))
    requires SessionStart(si, vi, code) in ServerArrives(s, code, socket, pid, listed).events
    ensures Listed(ServerArrives(s, code, socket, pid, listed).state, si, vi, code, pid)
  {
    assert PairedBut(s, leaked, code);
    AddKeeps(s, code, socket, false);
    AddProper(s.servers, code, socket);
    hide Inv, Add, Find, FindProc, FindPid, Paired;
    var u := s.(servers := Add(s.servers, code, socket));
    StartListed(u, Proc(code, pid, socket, u.viewers[vi].socket));
  }

  lemma Mode1SessionIsListed(s: State, leaked: seq<int>, viewer: int, server: int, pid: int, si: nat, vi: nat, code: int)
    requires Inv(s, leaked) && StepOk(s, Mode1(viewer, server, pid))
    requires SessionStart(si, vi, code) in Mode1Arrives(s, viewer, server, pid).events
    ensures Listed(Mode1Arrives(s, viewer, server, pid).state, si, vi, code, pid)
  {
    Mode1Leaves(s, viewer, server, pid);
    Mode1Indices(s.viewers, code, viewer);
    Mode1Indices(s.servers, code, server);
    hide Inv, Tidy, AddActive, Find, FindProc, FindPid;
    var t := Mode1Arrives(s, viewer, server, pid).state;
    assert t.procs[FindProc(s.procs, 0)] == Proc(code, pid, server, viewer);
  }

  /** Whenever a session starts, its child gets a process entry. */
  lemma EverySessionIsListed(s: State, leaked: seq<int>, x: Step, si: nat, vi: nat, code: int)
    requires Inv(s, leaked) && StepOk(s, x) && (x.Viewer? || x.Server? || x.Mode1?)
    requires SessionStart(si, vi, code) in Apply(s, x).events
    ensures Listed(Apply(s, x).state, si, vi, code, x.pid)
  {
    hide Inv, Listed, StepOk;
    match x
    case Viewer(c, socket, pid, listed) =>
      assert c == code;
      ViewerSessionIsListed(s, leaked, code, socket, pid, listed, si, vi);
    case Server(c, socket, pid, listed) =>
      assert c == code;
      ServerSessionIsListed(s, leaked, code, socket, pid, listed, si, vi);
    case Mode1(viewer, server, pid) => Mode1SessionIsListed(s, leaked, viewer, server, pid, si, vi, code);
  }

  lemma Mode1Indices(t: Table, code: int, socket: int)
    requires Proper(t) && code != 0 && !Has(t, code) && Has(t, 0)
    ensures AddActive(t, code, socket) == t[Find(t, 0) := Slot(code, true, socket)]
  {
    AddProper(t, code, socket);
  }

  lemma StartListed(s: State, p: Proc)
    requires Tidy(s) && p.code != 0 && FreshPid(s, p.pid) && FindProc(s.procs, p.code) == |s.procs|
    requires Has(s.servers, p.code) && s.servers[Find(s.servers, p.code)].socket == p.server
    requires Has(s.viewers, p.code) && s.viewers[Find(s.viewers, p.code)].socket == p.viewer
    ensures var t := Start(s, p);
            && t.servers[Find(s.servers, p.code)] == Slot(p.code, true, p.server)
            && t.viewers[Find(s.viewers, p.code)] == Slot(p.code, true, p.viewer)
            && p in t.procs
  {
    StartKeeps(s, p);
    assert Start(s, p).procs[FindProc(s.procs, 0)] == p;
  }

  // Invented codes

  ghost predicate AtLeast(t: Table, least: int) {
    forall i :: 0 <= i < |t| ==> t[i].code >= least
  }

  lemma AtLeastKept(t: Table, least: int, code: int, socket: int)
    requires AtLeast(t, least) && least <= 0
    ensures code >= least ==> AtLeast(Add(t, code, socket), least)
    ensures code >= least ==> AtLeast(AddActive(t, code, socket), least)
    ensures AtLeast(Remove(t, code), least) && AtLeast(Activate(t, code), least)
  {
  }

  /** No table holds a code below the last invented one. */
  ghost predicate NoneBelow(s: State) {
    s.lastCode <= 0 && AtLeast(s.servers, s.lastCode) && AtLeast(s.viewers, s.lastCode)
  }

  lemma {:induction false} SlotNoneBelow(s: State, i: nat, goneViewers: set<nat>, goneServers: set<nat>)
    requires NoneBelow(s)
    ensures NoneBelow(SweepSlot(s, i, goneViewers, goneServers).state)
    ensures SweepSlot(s, i, goneViewers, goneServers).state.lastCode == s.lastCode
  {
    hide Remove, AtLeast;
    if i < |s.viewers| {
      AtLeastKept(s.viewers, s.lastCode, s.viewers[i].code, 0);
    }
    if i < |s.servers| {
      AtLeastKept(s.servers, s.lastCode, s.servers[i].code, 0);
    }
  }

  lemma {:induction false} SweepNoneBelow(s: State, n: nat, goneViewers: set<nat>, goneServers: set<nat>)
    requires NoneBelow(s)
    ensures NoneBelow(Sweep(s, n, goneViewers, goneServers).state)
    ensures Sweep(s, n, goneViewers, goneServers).state.lastCode == s.lastCode
  {
    hide SweepSlot, NoneBelow;
    if n > 0 {
      SweepNoneBelow(s, n - 1, goneViewers, goneServers);
      SlotNoneBelow(Sweep(s, n - 1, goneViewers, goneServers).state, n - 1, goneViewers, goneServers);
    }
  }

  lemma {:induction false} ExitNoneBelow(s: State, exitCode: int, pid: int)
    requires NoneBelow(s)
    ensures NoneBelow(ChildExits(s, exitCode, pid).state) && ChildExits(s, exitCode, pid).state.lastCode == s.lastCode
  {
    hide Remove, AtLeast, RemoveProc;
    var k := FindPid(s.procs, pid);
    if k < |s.procs| {
      AtLeastKept(s.servers, s.lastCode, s.procs[k].code, 0);
      AtLeastKept(s.viewers, s.lastCode, s.procs[k].code, 0);
    }
  }

  lemma {:induction false} ReapNoneBelow(s: State, n: nat, exits: map<nat, int>)
    requires NoneBelow(s)
    ensures NoneBelow(Reap(s, n, exits).state)
    ensures Reap(s, n, exits).state.lastCode == s.lastCode
  {
    hide ChildExits, NoneBelow;
    if n > 0 {
      ReapNoneBelow(s, n - 1, exits);
      var t := Reap(s, n - 1, exits).state;
      var i := n - 1;
      if i < |t.procs| && t.procs[i].code != 0 && i in exits {
        ExitNoneBelow(t, exits[i], t.procs[i].pid);
      }
    }
  }

  /** What the peers and the kernel guarantee: positive codes and new pids. */
  predicate PeersOk(s: State, x: Step) {
    match x
    case Viewer(code, _, pid, _) => code > 0 && FreshPid(s, pid)
    case Server(code, _, pid, _) => code > 0 && FreshPid(s, pid)
    case Mode1(_, _, pid) => FreshPid(s, pid)
    case _ => true
  }

  lemma ArrivalNoneBelow(s: State, code: int, socket: int, pid: int, listed: bool)
    requires NoneBelow(s) && code > 0
    ensures NoneBelow(ViewerArrives(s, code, socket, pid, listed).state)
    ensures NoneBelow(ServerArrives(s, code, socket, pid, listed).state)
    ensures ViewerArrives(s, code, socket, pid, listed).state.lastCode == s.lastCode
    ensures ServerArrives(s, code, socket, pid, listed).state.lastCode == s.lastCode
  {
    AtLeastKept(s.viewers, s.lastCode, code, socket);
    AtLeastKept(Add(s.viewers, code, socket), s.lastCode, code, socket);
    AtLeastKept(s.servers, s.lastCode, code, socket);
    AtLeastKept(Add(s.servers, code, socket), s.lastCode, code, socket);
    hide Add, Activate, AddProc, AtLeast;
  }

  lemma {:induction false} Mode1NoneBelow(s: State, viewer: int, server: int, pid: int)
    requires NoneBelow(s) && s.lastCode > MIN_INVENTED_CODE
    ensures var t := Mode1Arrives(s, viewer, server, pid).state; NoneBelow(t) && t.lastCode == s.lastCode - 1
  {
    LowerBound(s.viewers, s.lastCode);
    LowerBound(s.servers, s.lastCode);
    hide Add, Activate, AddActive, AddProc, AtLeast;
    AtLeastKept(s.viewers, s.lastCode - 1, s.lastCode - 1, viewer);
    AtLeastKept(s.servers, s.lastCode - 1, s.lastCode - 1, server);
  }

  lemma {:induction false} LowerBound(t: Table, least: int)
    requires AtLeast(t, least)
    ensures AtLeast(t, least - 1) && !Has(t, least - 1)
  {
  }

  lemma {:induction false} StepNoneBelow(s: State, x: Step)
    requires NoneBelow(s) && PeersOk(s, x) && (x.Mode1? ==> s.lastCode > MIN_INVENTED_CODE)
    ensures StepOk(s, x) && NoneBelow(Apply(s, x).state)
    ensures Apply(s, x).state.lastCode == if x.Mode1? then s.lastCode - 1 else s.lastCode
  {
    LowerBound(s.viewers, s.lastCode);
    LowerBound(s.servers, s.lastCode);
    hide ViewerArrives, ServerArrives, Mode1Arrives, Sweep, Reap, AtLeast, Find;
    match x
    case Viewer(code, socket, pid, listed) => ArrivalNoneBelow(s, code, socket, pid, listed);
    case Server(code, socket, pid, listed) => ArrivalNoneBelow(s, code, socket, pid, listed);
    case Mode1(viewer, server, pid) => Mode1NoneBelow(s, viewer, server, pid);
    case SweepAll(goneViewers, goneServers) => SweepNoneBelow(s, |s.viewers|, goneViewers, goneServers);
    case ReapAll(exits) => ReapNoneBelow(s, |s.procs|, exits);
    case Beat =>
  }

  function Mode1Count(xs: seq<Step>): nat
    decreases |xs|
  {
    if xs == [] then 0 else Mode1Count(xs[..|xs| - 1]) + if xs[|xs| - 1].Mode1? then 1 else 0
  }

  predicate PeersRun(s: State, xs: seq<Step>)
    decreases |xs|
  {
    xs == [] || (PeersRun(s, xs[..|xs| - 1]) && PeersOk(Run(s, xs[..|xs| - 1]).state, xs[|xs| - 1]))
  }

  /** Until the counter wraps, after a million Mode 1 connections, every invented code is unused by itself. */
  lemma {:induction false} InventedCodesAreFresh(n: nat, xs: seq<Step>)
    requires PeersRun(Initial(n), xs) && Mode1Count(xs) <= -MIN_INVENTED_CODE
    ensures RunOk(Initial(n), xs)
    ensures NoneBelow(Run(Initial(n), xs).state) && Run(Initial(n), xs).state.lastCode + Mode1Count(xs) == 0
    decreases |xs|
  {
    hide Apply, StepOk, PeersOk;
    if xs != [] {
      var ys := xs[..|xs| - 1];
      InventedCodesAreFresh(n, ys);
      StepNoneBelow(Run(Initial(n), ys).state, xs[|xs| - 1]);
    }
  }

  /** At the wrap the counter jumps to -1 without looking whether that session still runs. */
  lemma WrapCanRepeatACode(s: State, viewer: int, server: int, pid: int)
    requires s.lastCode == MIN_INVENTED_CODE && Has(s.servers, -1) && Has(s.servers, 0)
    ensures !Proper(Mode1Arrives(s, viewer, server, pid).state.servers)
  {
    var i, j := Find(s.servers, -1), Find(s.servers, 0);
    var t := Mode1Arrives(s, viewer, server, pid).state.servers;
    assert t[i].code == -1 && t[j].code == -1;
  }

  // The event interface

  datatype Move = Do(step: Step) | HandleEvents(ended: bool)

  function Steps(ms: seq<Move>): seq<Step>
    decreases |ms|
  {
    if ms == [] then [] else
      var xs := Steps(ms[..|ms| - 1]);
      if ms[|ms| - 1].Do? then xs + [ms[|ms| - 1].step] else xs
  }

  /** The queue after a run of the whole repeater with the event interface on. */
  function Queued(n: nat, ms: seq<Move>): Queue<Event>
    decreases |ms|
  {
    if ms == [] then Empty() else
      var q := Queued(n, ms[..|ms| - 1]);
      match ms[|ms| - 1]
      case Do(x) => PostAll(q, Apply(Run(Initial(n), Steps(ms[..|ms| - 1])).state, x).events)
      case HandleEvents(ended) => Handle(q, ended)
  }

  /** While the fifo has never been full, children and fifo together hold the whole log, in order, once. */
  lemma {:induction false} NothingLostMeansAll(n: nat, ms: seq<Move>)
    ensures |Queued(n, ms).fifo| <= MAX_FIFO_EVENTS
    ensures Queued(n, ms).lost == 0 ==> Accepted(Queued(n, ms)) == Run(Initial(n), Steps(ms)).events
    decreases |ms|
  {
    hide Apply, Initial, Accepted;
    if ms == [] {
      NoEventsYet();
    } else {
      var before := ms[..|ms| - 1];
      NothingLostMeansAll(n, before);
      var q := Queued(n, before);
      var xs := Steps(before);
      match ms[|ms| - 1]
      case Do(x) =>
        var more := Apply(Run(Initial(n), xs).state, x).events;
        PostAllAccepts(q, more);
        assert (xs + [x])[..|xs|] == xs;
        assert more[..|more|] == more;
      case HandleEvents(ended) => HandleKeeps(q, ended);
    }
  }

  lemma NoEventsYet()
    ensures Accepted(Empty<Event>()) == []
  {
  }

  /** What the event children were given, followed by what still waits, replays to the tables. */
  lemma ListenersSeeTheTables(n: nat, ms: seq<Move>)
    requires RunOk(Initial(n), Steps(ms)) && Queued(n, ms).lost == 0
    ensures Replay(Tableau(Initial(n), []), Accepted(Queued(n, ms)))
            == Tableau(Run(Initial(n), Steps(ms)).state, Untold(n, Steps(ms)))
  {
    NothingLostMeansAll(n, ms);
    LogReplays(n, Steps(ms));
  }
}
