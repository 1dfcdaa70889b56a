/**
  * The three connection levels the repeater documents: free, waiting, and active with a
  * relay child running. Active means served, but for the sessions of killed children.
  */
module BrokerChildren {
  import opened Tables
  import opened Broker
  import opened BrokerRuns

  predicate HasChild(s: State, code: int) {
    FindProc(s.procs, code) < |s.procs|
  }

  /** A server active beside a viewer of the same code has a relay child. */
  predicate Served(s: State, code: int) {
    Lookup(s.servers, code).Some? && Lookup(s.servers, code).value.active && Has(s.viewers, code) ==> HasChild(s, code)
  }

  /** Both ends are active, and no child relays between them. */
  predicate Stranded(s: State, code: int) {
    && Lookup(s.servers, code).Some? && Lookup(s.servers, code).value.active
    && Lookup(s.viewers, code).Some? && Lookup(s.viewers, code).value.active
    && !HasChild(s, code)
  }

  /** Every session is served, except exactly those whose child was lost, which are stranded. */
  predicate ServedBut(s: State, gone: seq<int>, code: int) {
    if code in gone then Stranded(s, code) else Served(s, code)
  }

  ghost predicate AllServedBut(s: State, gone: seq<int>) {
    0 !in gone && forall code :: code != 0 ==> ServedBut(s, gone, code)
  }

  lemma {:induction false} ServedElsewhere(s: State, t: State, gone: seq<int>, code: int, after: seq<int>)
    requires AllServedBut(s, gone) && SameElsewhere(s, t, code) && (code != 0 ==> ServedBut(t, after, code))
    requires after == gone || (after == gone + [code] && code != 0)
    requires forall other :: other != 0 && other != code ==> (HasChild(s, other) <==> HasChild(t, other))
    ensures AllServedBut(t, after)
  {
    forall other | other != 0
      ensures ServedBut(t, after, other)
    {
      if other != code {
        assert ServedBut(s, gone, other);
        assert Lookup(t.servers, other) == Lookup(s.servers, other);
        assert Lookup(t.viewers, other) == Lookup(s.viewers, other);
      }
    }
  }

  /** A code that is missing or idle on one side has not lost a child. */
  lemma {:induction false} NotGone(s: State, gone: seq<int>, code: int)
    requires AllServedBut(s, gone)
    requires var a, b := Lookup(s.servers, code), Lookup(s.viewers, code);
             a.None? || b.None? || !a.value.active || !b.value.active || HasChild(s, code)
    ensures code !in gone
  {
    assert code != 0 ==> ServedBut(s, gone, code);
  }

  lemma {:induction false} ChildAdded(ps: seq<Proc>, p: Proc, other: int)
    requires p.code != 0 && other != 0 && FindProc(ps, 0) < |ps|
    ensures |AddProc(ps, p)| == |ps| && FindProc(AddProc(ps, p), p.code) < |ps|
    ensures other != p.code ==> (FindProc(ps, other) < |ps| <==> FindProc(AddProc(ps, p), other) < |ps|)
  {
    var at, i, j := FindProc(ps, 0), FindProc(ps, other), FindProc(AddProc(ps, p), other);
    assert AddProc(ps, p)[at] == p;
    if i < |ps| {
      assert AddProc(ps, p)[i] == ps[i];
    }
    if j < |ps| && j != at {
      assert AddProc(ps, p)[j] == ps[j];
    }
  }

  lemma {:induction false} ChildRemoved(ps: seq<Proc>, pid: int, other: int)
    requires ProcsDistinct(ps) && pid != 0 && FindPid(ps, pid) < |ps|
    requires other != 0 && other != ps[FindPid(ps, pid)].code
    ensures |RemoveProc(ps, pid)| == |ps|
    ensures FindProc(ps, other) < |ps| <==> FindProc(RemoveProc(ps, pid), other) < |ps|
  {
    var i, j := FindProc(ps, other), FindProc(RemoveProc(ps, pid), other);
    if i < |ps| {
      assert RemoveProc(ps, pid)[i] == ps[i];
    }
    if j < |ps| && j != FindPid(ps, pid) {
      assert RemoveProc(ps, pid)[j] == ps[j];
    }
  }

  lemma {:induction false} StartServes(s: State, gone: seq<int>, p: Proc)
    requires Tidy(s) && AllServedBut(s, gone) && p.code != 0 && p.code !in gone
    requires FreshPid(s, p.pid) && FindProc(s.procs, p.code) == |s.procs|
    requires Has(s.servers, p.code) && s.servers[Find(s.servers, p.code)].socket == p.server
    requires Has(s.viewers, p.code) && s.viewers[Find(s.viewers, p.code)].socket == p.viewer
    ensures AllServedBut(Start(s, p), gone)
  {
    StartKeeps(s, p);
    var t := Start(s, p);
    ChildAdded(s.procs, p, p.code);
    forall other | other != 0 && other != p.code
      ensures HasChild(s, other) <==> HasChild(t, other)
    {
      ChildAdded(s.procs, p, other);
    }
    ServedElsewhere(s, t, gone, p.code, gone);
  }

  lemma {:induction false} ViewerServes(s: State, leaked: seq<int>, gone: seq<int>, code: int, socket: int, pid: int, listed: bool)
    requires Inv(s, leaked) && AllServedBut(s, gone) && StepOk(s, Viewer(code, socket, pid, listed))
    ensures AllServedBut(ViewerArrives(s, code, socket, pid, listed).state, gone)
  {
    if !Has(s.viewers, code) {
      NotGone(s, gone, code);
    }
    hide Add, Activate, AddProc, Tidy, AllServedBut;
    if !Has(s.viewers, code) && listed && Has(s.viewers, 0) {
      assert PairedBut(s, leaked, code);
      var t := s.(viewers := Add(s.viewers, code, socket));
      AddKeeps(s, code, socket, true);
      ViewerWaits(s, code, socket);
      ServedElsewhere(s, t, gone, code, gone);
      if Has(t.servers, code) {
        StartServes(t, gone, Proc(code, pid, t.servers[Find(t.servers, code)].socket, socket));
      }
    }
  }

  lemma {:induction false} ServerServes(s: State, leaked: seq<int>, gone: seq<int>, code: int, socket: int, pid: int, listed: bool)
    requires Inv(s, leaked) && AllServedBut(s, gone) && StepOk(s, Server(code, socket, pid, listed))
    ensures AllServedBut(ServerArrives(s, code, socket, pid, listed).state, gone)
  {
    if !Has(s.servers, code) {
      NotGone(s, gone, code);
    }
    hide Add, Activate, AddProc, Tidy, AllServedBut;
    if !Has(s.servers, code) && listed && Has(s.servers, 0) {
      assert PairedBut(s, leaked, code);
      var t := s.(servers := Add(s.servers, code, socket));
      AddKeeps(s, code, socket, false);
      ServerWaits(s, code, socket);
      ServedElsewhere(s, t, gone, code, gone);
      if Has(t.viewers, code) {
        StartServes(t, gone, Proc(code, pid, socket, t.viewers[Find(t.viewers, code)].socket));
      }
    }
  }

  lemma {:induction false} Mode1Serves(s: State, gone: seq<int>, viewer: int, server: int, pid: int)
    requires Tidy(s) && AllServedBut(s, gone) && StepOk(s, Mode1(viewer, server, pid))
    ensures AllServedBut(Mode1Arrives(s, viewer, server, pid).state, gone)
  {
    var t, code := Mode1Arrives(s, viewer, server, pid).state, NextCode(s.lastCode);
    assert code != 0;
    NotGone(s, gone, code);
    hide AddActive, AddProc, Tidy, AllServedBut;
    Mode1Leaves(s, viewer, server, pid);
    if Has(s.viewers, 0) && Has(s.servers, 0) {
      var p := Proc(code, pid, server, viewer);
      ChildAdded(s.procs, p, code);
      forall other | other != 0 && other != code
        ensures HasChild(s, other) <==> HasChild(t, other)
      {
        ChildAdded(s.procs, p, other);
      }
    }
    ServedElsewhere(s, t, gone, code, gone);
  }

  lemma {:induction false} RemovalServes(s: State, gone: seq<int>, code: int, fromViewers: bool)
    requires Tidy(s) && AllServedBut(s, gone) && code != 0 && code !in gone && FindProc(s.procs, code) == |s.procs|
    ensures AllServedBut(if fromViewers then s.(viewers := Remove(s.viewers, code)) else s.(servers := Remove(s.servers, code)), gone)
  {
    assert ServedBut(s, gone, code);
    hide Remove, AllServedBut;
    var t := if fromViewers then s.(viewers := Remove(s.viewers, code)) else s.(servers := Remove(s.servers, code));
    RemoveKeeps(s, code, fromViewers, !fromViewers);
    RemoveProper(s.viewers, code);
    RemoveProper(s.servers, code);
    ServedElsewhere(s, t, gone, code, gone);
  }

  lemma {:induction false} SweepSlotServes(s: State, leaked: seq<int>, gone: seq<int>, i: nat, goneViewers: set<nat>, goneServers: set<nat>)
    requires Inv(s, leaked) && AllServedBut(s, gone)
    ensures AllServedBut(SweepSlot(s, i, goneViewers, goneServers).state, gone)
  {
    hide Remove, AllServedBut;
    var t := SweepViewer(s, i, goneViewers).state;
    assert Inv(t, leaked) by {
      SweepSlotKeeps(s, leaked, i, goneViewers, {});
    }
    if t != s {
      IdleHasNoChild(s, gone, i, true);
      RemovalServes(s, gone, s.viewers[i].code, true);
    }
    if SweepServer(t, i, goneServers).state != t {
      IdleHasNoChild(t, gone, i, false);
      RemovalServes(t, gone, t.servers[i].code, false);
    }
  }

  lemma {:induction false} IdleHasNoChild(s: State, gone: seq<int>, i: nat, viewerSide: bool)
    requires Tidy(s) && AllServedBut(s, gone) && i < |s.servers| && Idle((if viewerSide then s.viewers else s.servers)[i])
    ensures var code := (if viewerSide then s.viewers else s.servers)[i].code;
            code !in gone && FindProc(s.procs, code) == |s.procs|
  {
    var table := if viewerSide then s.viewers else s.servers;
    FindUnique(table, i);
    NotGone(s, gone, table[i].code);
    var k := FindProc(s.procs, table[i].code);
    assert k < |s.procs| ==> Relays(s, s.procs[k]);
  }

  lemma {:induction false} SweepServes(s: State, leaked: seq<int>, gone: seq<int>, n: nat, goneViewers: set<nat>, goneServers: set<nat>)
    requires Inv(s, leaked) && AllServedBut(s, gone)
    ensures AllServedBut(Sweep(s, n, goneViewers, goneServers).state, gone)
  {
    hide Inv, AllServedBut, SweepSlot;
    if n > 0 {
      SweepKeeps(s, leaked, n - 1, goneViewers, goneServers);
      SweepServes(s, leaked, gone, n - 1, goneViewers, goneServers);
      SweepSlotServes(Sweep(s, n - 1, goneViewers, goneServers).state, leaked, gone, n - 1, goneViewers, goneServers);
    }
  }

  /** A child that ends as the relay does takes its entries along; any other leaves both behind, active. */
  lemma {:induction false} ExitServes(s: State, leaked: seq<int>, gone: seq<int>, exitCode: int, pid: int)
    requires Inv(s, leaked) && AllServedBut(s, gone) && pid != 0 && FindPid(s.procs, pid) < |s.procs|
    ensures AllServedBut(ChildExits(s, exitCode, pid).state,
                         gone + if GoodExit(exitCode) then [] else [s.procs[FindPid(s.procs, pid)].code])
  {
    var k := FindPid(s.procs, pid);
    var code := s.procs[k].code;
    BothEndsFound(s, pid);
    UnlistKeeps(s, leaked, pid);
    assert Relays(s, s.procs[k]);
    assert HasChild(s, code);
    NotGone(s, gone, code);
    var t := s.(procs := RemoveProc(s.procs, pid));
    var u := t.(servers := Remove(t.servers, code), viewers := Remove(t.viewers, code));
    RemoveKeeps(t, code, true, true);
    RemoveProper(t.servers, code);
    forall other | other != 0 && other != code
      ensures HasChild(s, other) <==> HasChild(t, other)
    {
      ChildRemoved(s.procs, pid, other);
    }
    hide Remove, RemoveProc, Find, FindPid, FindProc, Inv, AllServedBut;
    assert gone + [] == gone;
    if GoodExit(exitCode) {
      ServedElsewhere(s, u, gone, code, gone);
    } else {
      ServedElsewhere(s, t, gone, code, gone + [code]);
    }
  }

  lemma {:induction false} PidIsFound(s: State, leaked: seq<int>, i: nat)
    requires Inv(s, leaked) && i < |s.procs| && s.procs[i].code != 0
    ensures s.procs[i].pid != 0 && FindPid(s.procs, s.procs[i].pid) == i
  {
  }

  lemma {:induction false} ReapServes(s: State, leaked: seq<int>, gone: seq<int>, n: nat, exits: map<nat, int>)
    requires Inv(s, leaked) && AllServedBut(s, gone)
    ensures AllServedBut(Reap(s, n, exits).state, gone + ReapAbandons(s, n, exits))
  {
    hide AllServedBut, ChildExits;
    if n == 0 {
      assert gone + [] == gone;
    } else {
      ReapKeeps(s, leaked, n - 1, exits);
      ReapServes(s, leaked, gone, n - 1, exits);
      var t := Reap(s, n - 1, exits).state;
      var lost := gone + ReapAbandons(s, n - 1, exits);
      var more := SlotAbandons(t, n - 1, exits);
      assert gone + ReapAbandons(s, n, exits) == lost + more;
      if n - 1 < |t.procs| && t.procs[n - 1].code != 0 && n - 1 in exits {
        PidIsFound(t, leaked, n - 1);
        ExitServes(t, leaked, lost, exits[n - 1], t.procs[n - 1].pid);
      } else {
        assert lost + [] == lost;
      }
    }
  }

  lemma {:induction false} StepServes(s: State, leaked: seq<int>, gone: seq<int>, x: Step)
    requires Inv(s, leaked) && AllServedBut(s, gone) && StepOk(s, x)
    ensures AllServedBut(Apply(s, x).state, gone + Abandon(s, x))
  {
    assert Tidy(s);
    assert gone + [] == gone;
    hide Inv, AllServedBut, Tidy, ViewerArrives, ServerArrives, Mode1Arrives, Sweep, Reap;
    match x
    case Viewer(code, socket, pid, listed) => ViewerServes(s, leaked, gone, code, socket, pid, listed);
    case Server(code, socket, pid, listed) => ServerServes(s, leaked, gone, code, socket, pid, listed);
    case Mode1(viewer, server, pid) => Mode1Serves(s, gone, viewer, server, pid);
    case SweepAll(goneViewers, goneServers) => SweepServes(s, leaked, gone, |s.viewers|, goneViewers, goneServers);
    case ReapAll(exits) => ReapServes(s, leaked, gone, |s.procs|, exits);
    case Beat =>
  }

  /** In every run a session is stranded exactly if its child ended outside 1 to 5, and it stays so for good. */
  lemma {:induction false} RunServes(n: nat, xs: seq<Step>)
    requires RunOk(Initial(n), xs)
    ensures AllServedBut(Run(Initial(n), xs).state, Abandons(Initial(n), xs))
    decreases |xs|
  {
    if xs == [] {
      forall code | code != 0
        ensures Served(Initial(n), code)
      {
      }
    } else {
      hide Inv, AllServedBut, Apply, StepOk, Initial, Abandon;
      RunKeeps(n, xs[..|xs| - 1]);
      RunServes(n, xs[..|xs| - 1]);
      StepServes(Run(Initial(n), xs[..|xs| - 1]).state, Leaks(Initial(n), xs[..|xs| - 1]), Abandons(Initial(n), xs[..|xs| - 1]), xs[|xs| - 1]);
    }
  }

  predicate ActiveIn(t: Table, code: int) {
    Lookup(t, code).Some? && Lookup(t, code).value.active
  }

  /** The entries of the code are active if and only if a relay child is listed under it. */
  predicate ActiveIffServed(s: State, code: int) {
    (ActiveIn(s.servers, code) <==> HasChild(s, code)) && (ActiveIn(s.viewers, code) <==> HasChild(s, code))
  }

  /**
    * The levels, over all runs: an entry is active if and only if a relay child is listed
    * under its code, unless a half-failed Mode 1 connection leaked it or its child was lost.
    */
  lemma {:induction false} ActiveMeansServed(n: nat, xs: seq<Step>, code: int)
    requires RunOk(Initial(n), xs) && code != 0 && code !in Leaks(Initial(n), xs)
    ensures ActiveIffServed(Run(Initial(n), xs).state, code) <==> code !in Abandons(Initial(n), xs)
  {
    RunKeeps(n, xs);
    RunServes(n, xs);
    hide Initial, Run, Leaks, Find, Abandons;
    var s, leaked, gone := Run(Initial(n), xs).state, Leaks(Initial(n), xs), Abandons(Initial(n), xs);
    assert PairedBut(s, leaked, code) && ServedBut(s, gone, code);
    var k := FindProc(s.procs, code);
    assert k < |s.procs| ==> Relays(s, s.procs[k]);
  }

  /** Active means served, for every code that has not leaked, exactly if no listed child ended outside 1 to 5. */
  lemma {:induction false} AllServedUnlessLost(n: nat, xs: seq<Step>)
    requires RunOk(Initial(n), xs)
    ensures (forall code :: code != 0 && code !in Leaks(Initial(n), xs) ==> ActiveIffServed(Run(Initial(n), xs).state, code))
            <==> Abandons(Initial(n), xs) == []
  {
    RunKeeps(n, xs);
    RunServes(n, xs);
    hide Initial, Run, Leaks, Abandons, ActiveIffServed;
    var s, leaked, gone := Run(Initial(n), xs).state, Leaks(Initial(n), xs), Abandons(Initial(n), xs);
    forall code | code != 0 && code !in leaked
      ensures ActiveIffServed(s, code) <==> code !in gone
    {
      ActiveMeansServed(n, xs, code);
    }
    if gone != [] {
      var code := gone[0];
      assert code != 0 && ServedBut(s, gone, code) && PairedBut(s, leaked, code);
      assert code !in leaked;
    }
  }

  lemma {:induction false} AbandonedForGood(s: State, xs: seq<Step>, ys: seq<Step>, code: int)
    requires code in Abandons(s, xs)
    ensures code in Abandons(s, xs + ys)
    decreases |ys|
  {
    hide Abandon, Run;
    if ys == [] {
      assert xs + ys == xs;
    } else {
      var all := xs + ys;
      assert all[..|all| - 1] == xs + ys[..|ys| - 1];
      AbandonedForGood(s, xs, ys[..|ys| - 1], code);
    }
  }

  /** Once a listed child has ended outside 1 to 5, its code is refused to everyone for the rest of the run:
      both entries stay active, and no child ever serves them. */
  lemma {:induction false} StrandedForGood(n: nat, xs: seq<Step>, ys: seq<Step>, code: int)
    requires RunOk(Initial(n), xs + ys) && code in Abandons(Initial(n), xs)
    ensures Stranded(Run(Initial(n), xs + ys).state, code)
  {
    hide Initial, Run, Abandons, Stranded;
    AbandonedForGood(Initial(n), xs, ys, code);
    RunServes(n, xs + ys);
    assert code != 0 && ServedBut(Run(Initial(n), xs + ys).state, Abandons(Initial(n), xs + ys), code);
  }
}
