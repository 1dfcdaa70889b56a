/**
  * The repeater's session broker: servers and viewers arrive in any order, wait in
  * fixed tables, are paired by code, get a relay child, time out or exit.
  */
module Broker {
  import opened Wrappers
  import opened Tables

  const MIN_INVENTED_CODE := -1000000

  datatype Event =
    | ViewerConnect(index: nat, code: int)
    | ViewerDisconnect(index: nat, code: int)
    | ServerConnect(index: nat, code: int)
    | ServerDisconnect(index: nat, code: int)
    | SessionStart(server: nat, viewer: nat, code: int)
    | SessionEnd(server: nat, viewer: nat, code: int)
    | Heartbeat

  /** lastCode is mode1ConnCode: 0 at the start, then the last code invented in Mode 1. */
  datatype State = State(servers: Table, viewers: Table, procs: seq<Proc>, lastCode: int)

  /** The tables after an operation and the events it sends, in order. */
  datatype Outcome = Outcome(state: State, events: seq<Event>)

  /** Both ends of a code become active, and its child is listed. */
  function Start(s: State, p: Proc): State {
    s.(servers := Activate(s.servers, p.code), viewers := Activate(s.viewers, p.code), procs := AddProc(s.procs, p))
  }

  /** A Mode 2 viewer; listed says that its code passed the list of allowed codes. */
  function ViewerArrives(s: State, code: int, socket: int, pid: int, listed: bool): Outcome {
    if Has(s.viewers, code) || !listed || !Has(s.viewers, 0) then Outcome(s, []) else
      var vi := Find(s.viewers, 0);
      var t := s.(viewers := Add(s.viewers, code, socket));
      if !Has(t.servers, code) then Outcome(t, [ViewerConnect(vi, code)]) else
        var si := Find(t.servers, code);
        Outcome(Start(t, Proc(code, pid, t.servers[si].socket, socket)),
                [ViewerConnect(vi, code), SessionStart(si, vi, code)])
  }

  function ServerArrives(s: State, code: int, socket: int, pid: int, listed: bool): Outcome {
    if Has(s.servers, code) || !listed || !Has(s.servers, 0) then Outcome(s, []) else
      var si := Find(s.servers, 0);
      var t := s.(servers := Add(s.servers, code, socket));
      if !Has(t.viewers, code) then Outcome(t, [ServerConnect(si, code)]) else
        var vi := Find(t.viewers, code);
        Outcome(Start(t, Proc(code, pid, socket, t.viewers[vi].socket)),
                [ServerConnect(si, code), SessionStart(si, vi, code)])
  }

  function NextCode(lastCode: int): int {
    if lastCode - 1 < MIN_INVENTED_CODE then -1 else lastCode - 1
  }

  /** Adds an entry and marks it active at once, as Mode 1 does for each side. */
  function AddActive(t: Table, code: int, socket: int): Table {
    if Has(t, 0) then Activate(Add(t, code, socket), code) else t
  }

  /** A Mode 1 viewer whose server has already been reached. */
  function Mode1Arrives(s: State, viewer: int, server: int, pid: int): Outcome {
    var code := NextCode(s.lastCode);
    var si, vi := Find(s.servers, 0), Find(s.viewers, 0);
    var t := s.(lastCode := code,
                viewers := AddActive(s.viewers, code, viewer),
                servers := AddActive(s.servers, code, server));
    if Has(s.viewers, 0) && Has(s.servers, 0) then
      Outcome(t.(procs := AddProc(t.procs, Proc(code, pid, server, viewer))),
              [ViewerConnect(vi, code), ServerConnect(si, code), SessionStart(si, vi, code)])
    else
      Outcome(t, [])
  }

  predicate Idle(x: Slot) {
    x.code != 0 && !x.active
  }

  /** gone holds the slots whose peer is found too old or disconnected in this pass. */
  function SweepViewer(s: State, i: nat, gone: set<nat>): Outcome {
    if i < |s.viewers| && Idle(s.viewers[i]) && i in gone then
      Outcome(s.(viewers := Remove(s.viewers, s.viewers[i].code)), [ViewerDisconnect(i, s.viewers[i].code)])
    else
      Outcome(s, [])
  }

  function SweepServer(s: State, i: nat, gone: set<nat>): Outcome {
    if i < |s.servers| && Idle(s.servers[i]) && i in gone then
      Outcome(s.(servers := Remove(s.servers, s.servers[i].code)), [ServerDisconnect(i, s.servers[i].code)])
    else
      Outcome(s, [])
  }

  function SweepSlot(s: State, i: nat, goneViewers: set<nat>, goneServers: set<nat>): Outcome {
    var a := SweepViewer(s, i, goneViewers);
    var b := SweepServer(a.state, i, goneServers);
    Outcome(b.state, a.events + b.events)
  }

  /** The first n slots of each table, front to back, a viewer before the server of the same index. */
  function Sweep(s: State, n: nat, goneViewers: set<nat>, goneServers: set<nat>): Outcome {
    if n == 0 then Outcome(s, []) else
      var a := Sweep(s, n - 1, goneViewers, goneServers);
      var b := SweepSlot(a.state, n - 1, goneViewers, goneServers);
      Outcome(b.state, a.events + b.events)
  }

  /** The child with this pid has ended with this exit code. */
  function ChildExits(s: State, exitCode: int, pid: int): Outcome {
    var i := FindPid(s.procs, pid);
    if i == |s.procs| then Outcome(s, []) else
      var code := s.procs[i].code;
      var si, vi := Find(s.servers, code), Find(s.viewers, code);
      if si == |s.servers| || vi == |s.viewers| then Outcome(s, []) else
        var t := s.(procs := RemoveProc(s.procs, pid));
        Outcome(if GoodExit(exitCode) then t.(servers := Remove(t.servers, code), viewers := Remove(t.viewers, code)) else t,
                [SessionEnd(si, vi, code)])
  }

  /** exits says which process entries the kernel reports as ended, and with what code. */
  function ReapSlot(s: State, i: nat, exits: map<nat, int>): Outcome {
    if i < |s.procs| && s.procs[i].code != 0 && i in exits then ChildExits(s, exits[i], s.procs[i].pid)
    else Outcome(s, [])
  }

  function Reap(s: State, n: nat, exits: map<nat, int>): Outcome {
    if n == 0 then Outcome(s, []) else
      var a := Reap(s, n - 1, exits);
      var b := ReapSlot(a.state, n - 1, exits);
      Outcome(b.state, a.events + b.events)
  }

  datatype Step =
    | Viewer(code: int, socket: int, pid: int, listed: bool)
    | Server(code: int, socket: int, pid: int, listed: bool)
    | Mode1(viewer: int, server: int, pid: int)
    | SweepAll(goneViewers: set<nat>, goneServers: set<nat>)
    | ReapAll(exits: map<nat, int>)
    | Beat

  function Apply(s: State, x: Step): Outcome {
    match x
    case Viewer(code, socket, pid, listed) => ViewerArrives(s, code, socket, pid, listed)
    case Server(code, socket, pid, listed) => ServerArrives(s, code, socket, pid, listed)
    case Mode1(viewer, server, pid) => Mode1Arrives(s, viewer, server, pid)
    case SweepAll(goneViewers, goneServers) => Sweep(s, |s.viewers|, goneViewers, goneServers)
    case ReapAll(exits) => Reap(s, |s.procs|, exits)
    case Beat => Outcome(s, [Heartbeat])
  }

  function Run(s: State, xs: seq<Step>): Outcome
    decreases |xs|
  {
    if xs == [] then Outcome(s, []) else
      var a := Run(s, xs[..|xs| - 1]);
      var b := Apply(a.state, xs[|xs| - 1]);
      Outcome(b.state, a.events + b.events)
  }

  function Initial(n: nat): State {
    var free := seq(n, i => Slot(0, false, 0));
    State(free, free, seq(n, i => Proc(0, 0, 0, 0)), 0)
  }

  // Invariants

  predicate FreshPid(s: State, pid: int) {
    pid != 0 && FindPid(s.procs, pid) == |s.procs|
  }

  /** Codes read from a peer are positive, forked children have new pids, invented codes are unused. */
  predicate StepOk(s: State, x: Step) {
    match x
    case Viewer(code, _, pid, _) => code > 0 && FreshPid(s, pid)
    case Server(code, _, pid, _) => code > 0 && FreshPid(s, pid)
    case Mode1(_, _, pid) =>
      FreshPid(s, pid) && !Has(s.servers, NextCode(s.lastCode)) && !Has(s.viewers, NextCode(s.lastCode))
    case _ => true
  }

  predicate RunOk(s: State, xs: seq<Step>)
    decreases |xs|
  {
    xs == [] || (RunOk(s, xs[..|xs| - 1]) && StepOk(Run(s, xs[..|xs| - 1]).state, xs[|xs| - 1]))
  }

  /** A server and a viewer with one code are both active or not both present; neither is active alone. */
  predicate Paired(s: State, code: int) {
    var a, b := Lookup(s.servers, code), Lookup(s.viewers, code);
    && (a.Some? && b.Some? ==> a.value.active && b.value.active)
    && (a.Some? && a.value.active ==> b.Some?)
    && (b.Some? && b.value.active ==> a.Some?)
  }

  /** The child relays between the very sockets that wait, active, under its code. */
  predicate Relays(s: State, p: Proc) {
    && Lookup(s.servers, p.code) == Some(Slot(p.code, true, p.server))
    && Lookup(s.viewers, p.code) == Some(Slot(p.code, true, p.viewer))
  }

  ghost predicate ProcsDistinct(ps: seq<Proc>) {
    && (forall i :: 0 <= i < |ps| ==> (ps[i].code == 0 <==> ps[i].pid == 0))
    && (forall i, j :: 0 <= i < j < |ps| && ps[i].code != 0 ==> ps[i].code != ps[j].code && ps[i].pid != ps[j].pid)
  }

  ghost predicate Tidy(s: State) {
    && |s.servers| == |s.viewers| == |s.procs|
    && Proper(s.servers) && Proper(s.viewers)
    && ProcsDistinct(s.procs)
    && (forall i :: 0 <= i < |s.procs| && s.procs[i].code != 0 ==> Relays(s, s.procs[i]))
    && s.lastCode <= 0
  }

  /** An active entry whose partner never got a slot. */
  predicate Orphan(s: State, code: int) {
    var a, b := Lookup(s.servers, code), Lookup(s.viewers, code);
    || (a.Some? && a.value.active && b.None?)
    || (b.Some? && b.value.active && a.None?)
  }

  /** Every code is paired, except exactly the leaked ones, which were invented and stay orphans. */
  predicate PairedBut(s: State, leaked: seq<int>, code: int) {
    if code in leaked then code < 0 && Orphan(s, code) else Paired(s, code)
  }

  ghost predicate Inv(s: State, leaked: seq<int>) {
    Tidy(s) && 0 !in leaked && forall code :: code != 0 ==> PairedBut(s, leaked, code)
  }

  /** The code lost by a step: a Mode 1 connection that finds room in one table only. */
  function Leak(s: State, x: Step): seq<int> {
    if x.Mode1? && Has(s.viewers, 0) != Has(s.servers, 0) then [NextCode(s.lastCode)] else []
  }

  function Leaks(s: State, xs: seq<Step>): seq<int>
    decreases |xs|
  {
    if xs == [] then [] else Leaks(s, xs[..|xs| - 1]) + Leak(Run(s, xs[..|xs| - 1]).state, xs[|xs| - 1])
  }

  /** The relay child only ever returns 1 to 5; other codes come from a child that was killed. */
  predicate GoodExit(exitCode: int) {
    1 <= exitCode <= 5
  }

  /** The code whose entries stay behind when the child in slot i is found to have ended otherwise. */
  function SlotAbandons(s: State, i: nat, exits: map<nat, int>): seq<int> {
    if i < |s.procs| && s.procs[i].code != 0 && i in exits && !GoodExit(exits[i]) then [s.procs[i].code] else []
  }

  function ReapAbandons(s: State, n: nat, exits: map<nat, int>): seq<int> {
    if n == 0 then []
    else ReapAbandons(s, n - 1, exits) + SlotAbandons(Reap(s, n - 1, exits).state, n - 1, exits)
  }

  function Abandon(s: State, x: Step): seq<int> {
    if x.ReapAll? then ReapAbandons(s, |s.procs|, x.exits) else []
  }

  /** The codes of all children that were found to have ended outside 1 to 5. */
  function Abandons(s: State, xs: seq<Step>): seq<int>
    decreases |xs|
  {
    if xs == [] then [] else Abandons(s, xs[..|xs| - 1]) + Abandon(Run(s, xs[..|xs| - 1]).state, xs[|xs| - 1])
  }

  // How one operation leaves the other codes alone

  ghost predicate SameElsewhere(s: State, t: State, code: int) {
    forall other :: other != 0 && other != code ==>
      Lookup(t.servers, other) == Lookup(s.servers, other) && Lookup(t.viewers, other) == Lookup(s.viewers, other)
  }

  lemma {:induction false} PairedElsewhere(s: State, t: State, leaked: seq<int>, code: int, after: seq<int>)
    requires Inv(s, leaked) && SameElsewhere(s, t, code) && (after == leaked || after == leaked + [code])
    requires code != 0 ==> PairedBut(t, after, code)
    ensures forall other :: other != 0 ==> PairedBut(t, after, other)
  {
    forall other | other != 0
      ensures PairedBut(t, after, other)
    {
      if other != code {
        assert PairedBut(s, leaked, other);
      }
    }
  }

  lemma {:induction false} RelaysElsewhere(s: State, t: State, code: int)
    requires Tidy(s) && SameElsewhere(s, t, code) && t.procs == s.procs && FindProc(s.procs, code) == |s.procs|
    ensures forall i :: 0 <= i < |t.procs| && t.procs[i].code != 0 ==> Relays(t, t.procs[i])
  {
    forall i | 0 <= i < |t.procs| && t.procs[i].code != 0
      ensures Relays(t, t.procs[i])
    {
      assert Relays(s, s.procs[i]);
    }
  }

  /** A fork for a newly active pair always finds a process slot, and keeps the process table in order. */
  lemma {:induction false} ForkKeeps(s: State, p: Proc)
    requires Tidy(s) && p.code != 0 && FreshPid(s, p.pid) && Relays(s, p) && FindProc(s.procs, p.code) == |s.procs|
    ensures FindProc(s.procs, 0) < |s.procs|
    ensures Tidy(s.(procs := AddProc(s.procs, p)))
  {
    FreeProc(s.procs, s.servers, p.code);
    var t := s.(procs := AddProc(s.procs, p));
    forall i | 0 <= i < |t.procs| && t.procs[i].code != 0
      ensures Relays(t, t.procs[i])
    {
      if i != FindProc(s.procs, 0) {
        assert Relays(s, s.procs[i]);
      }
    }
  }

  /** A code that is missing or idle in one of the tables has no child. */
  lemma {:induction false} NoChild(s: State, code: int)
    requires Tidy(s) && code != 0
    requires !Has(s.servers, code) || !Has(s.viewers, code)
    ensures FindProc(s.procs, code) == |s.procs|
  {
  }
}
