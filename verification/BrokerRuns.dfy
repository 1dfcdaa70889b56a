/** What every operation of the session broker keeps, and what holds over all its runs. */
module BrokerRuns {
  import opened Wrappers
  import opened Tables
  import opened Broker

  /** Adding a new code keeps everything in order; the new entry is idle. */
  lemma AddKeeps(s: State, code: int, socket: int, viewerSide: bool)
    requires Tidy(s) && code != 0
    requires if viewerSide then Has(s.viewers, 0) && !Has(s.viewers, code) else Has(s.servers, 0) && !Has(s.servers, code)
    ensures var t := if viewerSide then s.(viewers := Add(s.viewers, code, socket)) else s.(servers := Add(s.servers, code, socket));
            Tidy(t) && SameElsewhere(s, t, code) && FindProc(s.procs, code) == |s.procs|
  {
    var t := if viewerSide then s.(viewers := Add(s.viewers, code, socket)) else s.(servers := Add(s.servers, code, socket));
    NoChild(s, code);
    if viewerSide {
      AddProper(s.viewers, code, socket);
      forall other | other != 0 && other != code
        ensures Lookup(t.viewers, other) == Lookup(s.viewers, other)
      {
        OthersKept(s.viewers, code, socket, other);
      }
    } else {
      AddProper(s.servers, code, socket);
      forall other | other != 0 && other != code
        ensures Lookup(t.servers, other) == Lookup(s.servers, other)
      {
        OthersKept(s.servers, code, socket, other);
      }
    }
    RelaysElsewhere(s, t, code);
  }

  /** Activating both ends of an unserved code and forking its child. */
  lemma {:induction false} StartKeeps(s: State, p: Proc)
    requires Tidy(s) && p.code != 0 && FreshPid(s, p.pid) && FindProc(s.procs, p.code) == |s.procs|
    requires Has(s.servers, p.code) && s.servers[Find(s.servers, p.code)].socket == p.server
    requires Has(s.viewers, p.code) && s.viewers[Find(s.viewers, p.code)].socket == p.viewer
    ensures var t := Start(s, p);
            Tidy(t) && SameElsewhere(s, t, p.code) && Relays(t, p)
    ensures FindProc(s.procs, 0) < |s.procs|
  {
    var u := s.(servers := Activate(s.servers, p.code), viewers := Activate(s.viewers, p.code));
    ActivateProper(s.servers, p.code);
    ActivateProper(s.viewers, p.code);
    forall other | other != 0 && other != p.code
      ensures Lookup(u.servers, other) == Lookup(s.servers, other) && Lookup(u.viewers, other) == Lookup(s.viewers, other)
    {
      OthersKept(s.servers, p.code, 0, other);
      OthersKept(s.viewers, p.code, 0, other);
    }
    RelaysElsewhere(s, u, p.code);
    ForkKeeps(u, p);
  }

  /** Removing a code that has no child. */
  lemma {:induction false} RemoveKeeps(s: State, code: int, fromViewers: bool, fromServers: bool)
    requires Tidy(s) && code != 0 && FindProc(s.procs, code) == |s.procs|
    ensures var t := s.(viewers := if fromViewers then Remove(s.viewers, code) else s.viewers,
                        servers := if fromServers then Remove(s.servers, code) else s.servers);
            Tidy(t) && SameElsewhere(s, t, code)
  {
    var t := s.(viewers := if fromViewers then Remove(s.viewers, code) else s.viewers,
                servers := if fromServers then Remove(s.servers, code) else s.servers);
    RemoveProper(s.viewers, code);
    RemoveProper(s.servers, code);
    forall other | other != 0 && other != code
      ensures Lookup(t.servers, other) == Lookup(s.servers, other) && Lookup(t.viewers, other) == Lookup(s.viewers, other)
    {
      OthersKept(s.servers, code, 0, other);
      OthersKept(s.viewers, code, 0, other);
    }
    RelaysElsewhere(s, t, code);
  }

  lemma SameTwice(s: State, t: State, u: State, code: int)
    requires SameElsewhere(s, t, code) && SameElsewhere(t, u, code)
    ensures SameElsewhere(s, u, code)
  {
  }

  lemma ViewerKeeps(s: State, leaked: seq<int>, code: int, socket: int, pid: int, listed: bool)
    requires Inv(s, leaked) && StepOk(s, Viewer(code, socket, pid, listed))
    ensures Inv(ViewerArrives(s, code, socket, pid, listed).state, leaked)
  {
    hide Add, Activate, AddProc, Tidy;
    if !Has(s.viewers, code) && listed && Has(s.viewers, 0) {
      assert PairedBut(s, leaked, code);
      var t := s.(viewers := Add(s.viewers, code, socket));
      AddKeeps(s, code, socket, true);
      ViewerWaits(s, code, socket);
      if Has(t.servers, code) {
        var si := Find(t.servers, code);
        var p := Proc(code, pid, t.servers[si].socket, socket);
        StartKeeps(t, p);
        var u := Start(t, p);
        SameTwice(s, t, u, code);
        PairedElsewhere(s, u, leaked, code, leaked);
      } else {
        PairedElsewhere(s, t, leaked, code, leaked);
      }
    }
  }

  lemma ViewerWaits(s: State, code: int, socket: int)
    requires Tidy(s) && code != 0 && Has(s.viewers, 0) && !Has(s.viewers, code)
    ensures Lookup(Add(s.viewers, code, socket), code) == Some(Slot(code, false, socket))
    ensures Find(Add(s.viewers, code, socket), code) == Find(s.viewers, 0)
    ensures Paired(s, code) && Has(s.servers, code) ==> !s.servers[Find(s.servers, code)].active
  {
    AddProper(s.viewers, code, socket);
  }

  lemma ServerWaits(s: State, code: int, socket: int)
    requires Tidy(s) && code != 0 && Has(s.servers, 0) && !Has(s.servers, code)
    ensures Lookup(Add(s.servers, code, socket), code) == Some(Slot(code, false, socket))
    ensures Find(Add(s.servers, code, socket), code) == Find(s.servers, 0)
    ensures Paired(s, code) && Has(s.viewers, code) ==> !s.viewers[Find(s.viewers, code)].active
  {
    AddProper(s.servers, code, socket);
  }

  lemma ServerKeeps(s: State, leaked: seq<int>, code: int, socket: int, pid: int, listed: bool)
    requires Inv(s, leaked) && StepOk(s, Server(code, socket, pid, listed))
    ensures Inv(ServerArrives(s, code, socket, pid, listed).state, leaked)
  {
    hide Add, Activate, AddProc, Tidy;
    if !Has(s.servers, code) && listed && Has(s.servers, 0) {
      assert PairedBut(s, leaked, code);
      var t := s.(servers := Add(s.servers, code, socket));
      AddKeeps(s, code, socket, false);
      ServerWaits(s, code, socket);
      if Has(t.viewers, code) {
        var vi := Find(t.viewers, code);
        var p := Proc(code, pid, socket, t.viewers[vi].socket);
        StartKeeps(t, p);
        var u := Start(t, p);
        SameTwice(s, t, u, code);
        PairedElsewhere(s, u, leaked, code, leaked);
      } else {
        PairedElsewhere(s, t, leaked, code, leaked);
      }
    }
  }

  function WithActive(s: State, code: int, socket: int, viewerSide: bool): State {
    if viewerSide then s.(viewers := AddActive(s.viewers, code, socket)) else s.(servers := AddActive(s.servers, code, socket))
  }

  /** One side of a Mode 1 session: an active entry, if the table has room. */
  lemma {:induction false} AddActiveKeeps(s: State, code: int, socket: int, viewerSide: bool)
    requires Tidy(s) && code != 0 && !Has(if viewerSide then s.viewers else s.servers, code)
    ensures var t := WithActive(s, code, socket, viewerSide);
            Tidy(t) && SameElsewhere(s, t, code) && FindProc(t.procs, code) == |t.procs|
    ensures Lookup(AddActive(if viewerSide then s.viewers else s.servers, code, socket), code)
            == if Has(if viewerSide then s.viewers else s.servers, 0) then Some(Slot(code, true, socket)) else None
  {
    var table := if viewerSide then s.viewers else s.servers;
    var t := WithActive(s, code, socket, viewerSide);
    NoChild(s, code);
    if Has(table, 0) {
      AddProper(table, code, socket);
      ActivateProper(Add(table, code, socket), code);
      forall other | other != 0 && other != code
        ensures Lookup(AddActive(table, code, socket), other) == Lookup(table, other)
      {
        OthersKept(table, code, socket, other);
        OthersKept(Add(table, code, socket), code, socket, other);
      }
    }
    RelaysElsewhere(s, t, code);
  }

  /** What a Mode 1 connection leaves behind: entries on the sides with room, a child only when both had room. */
  lemma Mode1Leaves(s: State, viewer: int, server: int, pid: int)
    requires Tidy(s) && StepOk(s, Mode1(viewer, server, pid))
    ensures var t := Mode1Arrives(s, viewer, server, pid).state;
            var code := NextCode(s.lastCode);
            && Tidy(t) && SameElsewhere(s, t, code)
            && Lookup(t.viewers, code) == (if Has(s.viewers, 0) then Some(Slot(code, true, viewer)) else None)
            && Lookup(t.servers, code) == (if Has(s.servers, 0) then Some(Slot(code, true, server)) else None)
            && (Has(s.viewers, 0) && Has(s.servers, 0) ==> Relays(t, Proc(code, pid, server, viewer)))
    ensures Has(s.viewers, 0) && Has(s.servers, 0) ==> FindProc(s.procs, 0) < |s.procs|
  {
    hide AddActive, AddProc, Find, FindProc, FindPid;
    var code := NextCode(s.lastCode);
    var s0 := s.(lastCode := code);
    assert Tidy(s0) by {
      forall i | 0 <= i < |s0.procs| && s0.procs[i].code != 0
        ensures Relays(s0, s0.procs[i])
      {
        assert Relays(s, s.procs[i]);
      }
    }
    AddActiveKeeps(s0, code, viewer, true);
    var s1 := WithActive(s0, code, viewer, true);
    AddActiveKeeps(s1, code, server, false);
    var s2 := WithActive(s1, code, server, false);
    SameTwice(s, s1, s2, code);
    if Has(s.viewers, 0) && Has(s.servers, 0) {
      ForkKeeps(s2, Proc(code, pid, server, viewer));
    }
  }

  lemma {:induction false} Mode1Keeps(s: State, leaked: seq<int>, viewer: int, server: int, pid: int)
    requires Inv(s, leaked) && StepOk(s, Mode1(viewer, server, pid))
    ensures Inv(Mode1Arrives(s, viewer, server, pid).state, leaked + Leak(s, Mode1(viewer, server, pid)))
  {
    Mode1Leaves(s, viewer, server, pid);
    assert PairedBut(s, leaked, NextCode(s.lastCode));
    PairedElsewhere(s, Mode1Arrives(s, viewer, server, pid).state, leaked, NextCode(s.lastCode),
                    leaked + Leak(s, Mode1(viewer, server, pid)));
  }

  /** Removing a waiting entry. */
  lemma SweepSlotKeeps(s: State, leaked: seq<int>, i: nat, goneViewers: set<nat>, goneServers: set<nat>)
    requires Inv(s, leaked)
    ensures Inv(SweepSlot(s, i, goneViewers, goneServers).state, leaked)
  {
    hide Remove;
    var t := SweepViewer(s, i, goneViewers).state;
    if t != s {
      RemoveIdle(s, leaked, s.viewers[i].code, i, true);
    }
    var u := SweepServer(t, i, goneServers).state;
    if u != t {
      RemoveIdle(t, leaked, t.servers[i].code, i, false);
    }
  }

  lemma RemoveIdle(s: State, leaked: seq<int>, code: int, i: nat, viewerSide: bool)
    requires Inv(s, leaked) && i < |s.servers| && code == (if viewerSide then s.viewers else s.servers)[i].code
    requires Idle((if viewerSide then s.viewers else s.servers)[i])
    ensures Inv(if viewerSide then s.(viewers := Remove(s.viewers, code)) else s.(servers := Remove(s.servers, code)), leaked)
  {
    var t := if viewerSide then s.(viewers := Remove(s.viewers, code)) else s.(servers := Remove(s.servers, code));
    FindUnique(if viewerSide then s.viewers else s.servers, i);
    assert FindProc(s.procs, code) == |s.procs| by {
      var k := FindProc(s.procs, code);
      assert k < |s.procs| ==> Relays(s, s.procs[k]);
    }
    RemoveKeeps(s, code, viewerSide, !viewerSide);
    RemoveProper(s.viewers, code);
    RemoveProper(s.servers, code);
    assert PairedBut(s, leaked, code);
    PairedElsewhere(s, t, leaked, code, leaked);
  }

  lemma {:induction false} SweepKeeps(s: State, leaked: seq<int>, n: nat, goneViewers: set<nat>, goneServers: set<nat>)
    requires Inv(s, leaked)
    ensures Inv(Sweep(s, n, goneViewers, goneServers).state, leaked)
  {
    if n > 0 {
      SweepKeeps(s, leaked, n - 1, goneViewers, goneServers);
      SweepSlotKeeps(Sweep(s, n - 1, goneViewers, goneServers).state, leaked, n - 1, goneViewers, goneServers);
    }
  }

  /** The entry of a child that ends names a code found in both tables: the "illegal viewerInd or serverInd" branch is dead. */
  lemma BothEndsFound(s: State, pid: int)
    requires Tidy(s) && pid != 0 && FindPid(s.procs, pid) < |s.procs|
    ensures var code := s.procs[FindPid(s.procs, pid)].code;
            code != 0 && Has(s.servers, code) && Has(s.viewers, code)
  {
    assert Relays(s, s.procs[FindPid(s.procs, pid)]);
  }

  /** Clearing a process entry. */
  lemma UnlistKeeps(s: State, leaked: seq<int>, pid: int)
    requires Inv(s, leaked) && pid != 0 && FindPid(s.procs, pid) < |s.procs|
    ensures var t := s.(procs := RemoveProc(s.procs, pid));
            Inv(t, leaked) && FindProc(t.procs, s.procs[FindPid(s.procs, pid)].code) == |t.procs|
  {
    var t := s.(procs := RemoveProc(s.procs, pid));
    var k := FindPid(s.procs, pid);
    var code := s.procs[k].code;
    BothEndsFound(s, pid);
    forall i | 0 <= i < |t.procs| && t.procs[i].code != 0
      ensures Relays(t, t.procs[i]) && t.procs[i].code != code
    {
      assert Relays(s, s.procs[i]);
      assert i != k;
      assert i < k ==> s.procs[i].code != s.procs[k].code;
      assert k < i ==> s.procs[k].code != s.procs[i].code;
    }
    PairedElsewhere(s, t, leaked, 0, leaked);
  }

  lemma ExitKeeps(s: State, leaked: seq<int>, exitCode: int, pid: int)
    requires Inv(s, leaked) && pid != 0
    ensures Inv(ChildExits(s, exitCode, pid).state, leaked)
  {
    hide Remove, RemoveProc, Find, FindPid;
    var k := FindPid(s.procs, pid);
    if k < |s.procs| {
      var code := s.procs[k].code;
      BothEndsFound(s, pid);
      UnlistKeeps(s, leaked, pid);
      assert PairedBut(s, leaked, code);
      var t := s.(procs := RemoveProc(s.procs, pid));
      if 1 <= exitCode <= 5 {
        RemoveKeeps(t, code, true, true);
        RemoveProper(t.servers, code);
        RemoveProper(t.viewers, code);
        PairedElsewhere(t, t.(servers := Remove(t.servers, code), viewers := Remove(t.viewers, code)), leaked, code, leaked);
      }
    }
  }

  lemma {:induction false} ReapKeeps(s: State, leaked: seq<int>, n: nat, exits: map<nat, int>)
    requires Inv(s, leaked)
    ensures Inv(Reap(s, n, exits).state, leaked)
  {
    if n > 0 {
      ReapKeeps(s, leaked, n - 1, exits);
      var t := Reap(s, n - 1, exits).state;
      if n - 1 < |t.procs| && t.procs[n - 1].code != 0 && n - 1 in exits {
        ExitKeeps(t, leaked, exits[n - 1], t.procs[n - 1].pid);
      }
    }
  }

  lemma StepKeeps(s: State, leaked: seq<int>, x: Step)
    requires Inv(s, leaked) && StepOk(s, x)
    ensures Inv(Apply(s, x).state, leaked + Leak(s, x))
  {
    hide Inv, ViewerArrives, ServerArrives, Mode1Arrives, Sweep, Reap;
    assert !x.Mode1? ==> leaked + Leak(s, x) == leaked;
    match x
    case Viewer(code, socket, pid, listed) => ViewerKeeps(s, leaked, code, socket, pid, listed);
    case Server(code, socket, pid, listed) => ServerKeeps(s, leaked, code, socket, pid, listed);
    case Mode1(viewer, server, pid) => Mode1Keeps(s, leaked, viewer, server, pid);
    case SweepAll(goneViewers, goneServers) => SweepKeeps(s, leaked, |s.viewers|, goneViewers, goneServers);
    case ReapAll(exits) => ReapKeeps(s, leaked, |s.procs|, exits);
    case Beat =>
  }

  lemma InitialInv(n: nat)
    ensures Inv(Initial(n), [])
  {
    var s := Initial(n);
    forall code | code != 0
      ensures !Has(s.servers, code) && !Has(s.viewers, code)
    {
    }
  }

  /** Pairing safety: the invariant holds after every run from the empty tables. */
  lemma {:induction false} RunKeeps(n: nat, xs: seq<Step>)
    requires RunOk(Initial(n), xs)
    ensures Inv(Run(Initial(n), xs).state, Leaks(Initial(n), xs))
    decreases |xs|
  {
    hide Inv, Apply, StepOk, Initial, Leak;
    if xs == [] {
      InitialInv(n);
    } else {
      RunKeeps(n, xs[..|xs| - 1]);
      StepKeeps(Run(Initial(n), xs[..|xs| - 1]).state, Leaks(Initial(n), xs[..|xs| - 1]), xs[|xs| - 1]);
    }
  }
}
