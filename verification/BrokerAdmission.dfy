/** Who gets in and who is thrown out: when exactly an arrival is entered, what it finds, that nobody gets in
    whose code is not on the list, and what a sweep removes. */
module BrokerAdmission {
  import opened Wrappers
  import opened Tables
  import opened Broker
  import opened BrokerRuns

  // ----- one arrival -----

  /** The list allows the code, the table does not hold it yet, and there is a free slot. */
  predicate Admitted(t: Table, code: int, listed: bool) {
    listed && !Has(t, code) && Has(t, 0)
  }

  /** Every child of s is still listed in t. */
  ghost predicate KeepsChildren(s: State, t: State) {
    forall p <- s.procs :: p.code != 0 ==> p in t.procs
  }

  lemma {:induction false} ChildAdded(ps: seq<Proc>, p: Proc)
    requires FindProc(ps, 0) < |ps|
    ensures p in AddProc(ps, p) && forall q <- ps :: q.code != 0 ==> q in AddProc(ps, p)
  {
    var i := FindProc(ps, 0);
    var qs := AddProc(ps, p);
    assert qs[i] == p;
    forall q | q in ps && q.code != 0
      ensures q in qs
    {
      var k :| 0 <= k < |ps| && ps[k] == q;
      assert qs[k] == q;
    }
  }

  /** Both ends of a code that waits, and their child. */
  lemma {:induction false} Started(s: State, p: Proc)
    requires Tidy(s) && p.code != 0 && FreshPid(s, p.pid) && FindProc(s.procs, p.code) == |s.procs|
    requires Lookup(s.servers, p.code).Some? && Lookup(s.servers, p.code).value.socket == p.server
    requires Lookup(s.viewers, p.code).Some? && Lookup(s.viewers, p.code).value.socket == p.viewer
    ensures var t := Start(s, p);
            Relays(t, p) && p in t.procs && KeepsChildren(s, t) && SameElsewhere(s, t, p.code)
  {
    StartKeeps(s, p);
    ChildAdded(s.procs, p);
  }

  /** A viewer gets an entry exactly if it is admitted; otherwise nothing happens at all. Its entry is active,
      with a child between the two sockets, exactly if its server waits. */
  lemma {:induction false} ViewerAdmittedIff(s: State, leaked: seq<int>, code: int, socket: int, pid: int, listed: bool)
    requires Inv(s, leaked) && StepOk(s, Viewer(code, socket, pid, listed))
    ensures var o := ViewerArrives(s, code, socket, pid, listed);
            var t, server := o.state, Lookup(s.servers, code);
            if Admitted(s.viewers, code, listed) then
              && Lookup(t.viewers, code) == Some(Slot(code, server.Some?, socket))
              && KeepsChildren(s, t) && SameElsewhere(s, t, code) && t.lastCode == s.lastCode
              && if server.Some? then
                   && Lookup(t.servers, code) == Some(Slot(code, true, server.value.socket))
                   && Proc(code, pid, server.value.socket, socket) in t.procs
                   && o.events == [ViewerConnect(Find(s.viewers, 0), code),
                                   SessionStart(Find(s.servers, code), Find(s.viewers, 0), code)]
                 else
                   t.servers == s.servers && t.procs == s.procs && o.events == [ViewerConnect(Find(s.viewers, 0), code)]
            else o == Outcome(s, [])
  {
    hide Add, Activate, AddProc, Tidy, Find;
    if Admitted(s.viewers, code, listed) {
      var t := s.(viewers := Add(s.viewers, code, socket));
      AddKeeps(s, code, socket, true);
      ViewerWaits(s, code, socket);
      if Has(s.servers, code) {
        Started(t, Proc(code, pid, Lookup(s.servers, code).value.socket, socket));
      }
    }
  }

  lemma {:induction false} ServerAdmittedIff(s: State, leaked: seq<int>, code: int, socket: int, pid: int, listed: bool)
    requires Inv(s, leaked) && StepOk(s, Server(code, socket, pid, listed))
    ensures var o := ServerArrives(s, code, socket, pid, listed);
            var t, viewer := o.state, Lookup(s.viewers, code);
            if Admitted(s.servers, code, listed) then
              && Lookup(t.servers, code) == Some(Slot(code, viewer.Some?, socket))
              && KeepsChildren(s, t) && SameElsewhere(s, t, code) && t.lastCode == s.lastCode
              && if viewer.Some? then
                   && Lookup(t.viewers, code) == Some(Slot(code, true, viewer.value.socket))
                   && Proc(code, pid, socket, viewer.value.socket) in t.procs
                   && o.events == [ServerConnect(Find(s.servers, 0), code),
                                   SessionStart(Find(s.servers, 0), Find(s.viewers, code), code)]
                 else
                   t.viewers == s.viewers && t.procs == s.procs && o.events == [ServerConnect(Find(s.servers, 0), code)]
            else o == Outcome(s, [])
  {
    hide Add, Activate, AddProc, Tidy, Find;
    if Admitted(s.servers, code, listed) {
      var t := s.(servers := Add(s.servers, code, socket));
      AddKeeps(s, code, socket, false);
      ServerWaits(s, code, socket);
      if Has(s.viewers, code) {
        Started(t, Proc(code, pid, socket, Lookup(s.viewers, code).value.socket));
      }
    }
  }

  // ----- what a sweep removes -----

  /** A slot after a sweep that found its peer gone or not: only connections that wait are removed. */
  function Swept(x: Slot, gone: bool): Slot {
    if gone && x.code != 0 && !x.active then Slot(0, false, x.socket) else x
  }

  lemma {:induction false} RemoveAt(t: Table, i: nat)
    requires Proper(t) && i < |t| && t[i].code != 0
    ensures Remove(t, t[i].code) == t[i := Slot(0, false, t[i].socket)]
  {
    FindUnique(t, i);
  }

  lemma {:induction false} SweepSlotExact(s: State, leaked: seq<int>, i: nat, goneViewers: set<nat>, goneServers: set<nat>)
    requires Inv(s, leaked) && i < |s.viewers|
    ensures var t := SweepSlot(s, i, goneViewers, goneServers).state;
            && t.viewers == s.viewers[i := Swept(s.viewers[i], i in goneViewers)]
            && t.servers == s.servers[i := Swept(s.servers[i], i in goneServers)]
            && t.procs == s.procs && t.lastCode == s.lastCode
  {
    hide Remove, Find;
    if Idle(s.viewers[i]) {
      RemoveAt(s.viewers, i);
    }
    if Idle(s.servers[i]) {
      RemoveAt(s.servers, i);
    }
  }

  /** A sweep clears, in both tables, the slots of those that wait and are gone, and no other. */
  lemma {:induction false} SweepExact(s: State, leaked: seq<int>, n: nat, goneViewers: set<nat>, goneServers: set<nat>)
    requires Inv(s, leaked) && n <= |s.viewers|
    ensures var t := Sweep(s, n, goneViewers, goneServers).state;
            && |t.viewers| == |s.viewers| && |t.servers| == |s.servers| && t.procs == s.procs && t.lastCode == s.lastCode
            && (forall i :: 0 <= i < |s.viewers| ==> t.viewers[i] == Swept(s.viewers[i], i < n && i in goneViewers))
            && (forall i :: 0 <= i < |s.servers| ==> t.servers[i] == Swept(s.servers[i], i < n && i in goneServers))
    decreases n
  {
    hide Inv, SweepSlot;
    assert |s.servers| == |s.viewers| by { SameLengths(s, leaked); }
    if n > 0 {
      SweepExact(s, leaked, n - 1, goneViewers, goneServers);
      SweepKeeps(s, leaked, n - 1, goneViewers, goneServers);
      SweepSlotExact(Sweep(s, n - 1, goneViewers, goneServers).state, leaked, n - 1, goneViewers, goneServers);
    }
  }

  lemma {:induction false} SameLengths(s: State, leaked: seq<int>)
    requires Inv(s, leaked)
    ensures |s.servers| == |s.viewers| == |s.procs|
  {
  }

  // ----- nobody gets in unlisted -----

  /** Every positive code of t was in s with the same socket. */
  ghost predicate NoneNew(s: Table, t: Table) {
    forall c :: c > 0 && Has(t, c) ==> Has(s, c) && Lookup(s, c).value.socket == Lookup(t, c).value.socket
  }

  /** The positive codes of t were in s with the same sockets, but for one newcomer. */
  ghost predicate OneNew(s: Table, t: Table, code: int, socket: int) {
    forall c :: c > 0 && Has(t, c) ==>
      (Has(s, c) && Lookup(s, c).value.socket == Lookup(t, c).value.socket)
      || (c == code && Lookup(t, c).value.socket == socket)
  }

  lemma {:induction false} RemoveBringsNone(t: Table, code: int)
    requires Proper(t) && code != 0
    ensures NoneNew(t, Remove(t, code))
  {
    RemoveProper(t, code);
    forall c | c > 0 && Has(Remove(t, code), c)
      ensures Has(t, c) && Lookup(t, c).value.socket == Lookup(Remove(t, code), c).value.socket
    {
      if c != code {
        OthersKept(t, code, 0, c);
      }
    }
  }

  lemma {:induction false} SweepBringsNone(s: State, leaked: seq<int>, n: nat, goneViewers: set<nat>, goneServers: set<nat>)
    requires Inv(s, leaked)
    ensures var t := Sweep(s, n, goneViewers, goneServers).state; NoneNew(s.viewers, t.viewers) && NoneNew(s.servers, t.servers)
    decreases n
  {
    hide Remove, Find;
    if n > 0 {
      SweepBringsNone(s, leaked, n - 1, goneViewers, goneServers);
      SweepKeeps(s, leaked, n - 1, goneViewers, goneServers);
      var u := Sweep(s, n - 1, goneViewers, goneServers).state;
      if n - 1 < |u.viewers| && Idle(u.viewers[n - 1]) {
        RemoveBringsNone(u.viewers, u.viewers[n - 1].code);
      }
      if n - 1 < |u.servers| && Idle(u.servers[n - 1]) {
        RemoveBringsNone(u.servers, u.servers[n - 1].code);
      }
    }
  }

  lemma {:induction false} ExitBringsNone(s: State, leaked: seq<int>, exitCode: int, pid: int)
    requires Inv(s, leaked) && pid != 0
    ensures var t := ChildExits(s, exitCode, pid).state; NoneNew(s.viewers, t.viewers) && NoneNew(s.servers, t.servers)
  {
    hide Remove, RemoveProc, Find;
    if FindPid(s.procs, pid) < |s.procs| {
      BothEndsFound(s, pid);
      RemoveBringsNone(s.viewers, s.procs[FindPid(s.procs, pid)].code);
      RemoveBringsNone(s.servers, s.procs[FindPid(s.procs, pid)].code);
    }
  }

  lemma {:induction false} ReapBringsNone(s: State, leaked: seq<int>, n: nat, exits: map<nat, int>)
    requires Inv(s, leaked)
    ensures var t := Reap(s, n, exits).state; NoneNew(s.viewers, t.viewers) && NoneNew(s.servers, t.servers)
    decreases n
  {
    hide ChildExits, Find;
    if n > 0 {
      ReapBringsNone(s, leaked, n - 1, exits);
      ReapKeeps(s, leaked, n - 1, exits);
      var u := Reap(s, n - 1, exits).state;
      if n - 1 < |u.procs| && u.procs[n - 1].code != 0 && n - 1 in exits {
        ExitBringsNone(u, leaked, exits[n - 1], u.procs[n - 1].pid);
      }
    }
  }

  predicate SameSocket(a: Option<Slot>, b: Option<Slot>) {
    a.Some? == b.Some? && (a.Some? ==> a.value.socket == b.value.socket)
  }

  /** Tables that agree on every code but one. */
  lemma {:induction false} ElsewhereBringsNone(s: State, t: State, code: int)
    requires SameElsewhere(s, t, code)
    ensures forall c :: c > 0 && c != code ==> Lookup(t.viewers, c) == Lookup(s.viewers, c) && Lookup(t.servers, c) == Lookup(s.servers, c)
    ensures code <= 0 ==> NoneNew(s.viewers, t.viewers) && NoneNew(s.servers, t.servers)
    ensures Lookup(t.viewers, code).Some? ==> OneNew(s.viewers, t.viewers, code, Lookup(t.viewers, code).value.socket)
    ensures Lookup(t.servers, code).Some? ==> OneNew(s.servers, t.servers, code, Lookup(t.servers, code).value.socket)
    ensures SameSocket(Lookup(s.viewers, code), Lookup(t.viewers, code)) ==> NoneNew(s.viewers, t.viewers)
    ensures SameSocket(Lookup(s.servers, code), Lookup(t.servers, code)) ==> NoneNew(s.servers, t.servers)
  {
    hide Find;
    forall c | c > 0 && c != code
      ensures Lookup(t.viewers, c) == Lookup(s.viewers, c) && Lookup(t.servers, c) == Lookup(s.servers, c)
      ensures Has(t.viewers, c) == Has(s.viewers, c) && Has(t.servers, c) == Has(s.servers, c)
    {
    }
  }

  lemma {:induction false} SameBringsNone(s: State)
    ensures NoneNew(s.viewers, s.viewers) && NoneNew(s.servers, s.servers)
  {
  }

  lemma {:induction false} Mode1BringsNone(s: State, x: Step)
    requires Tidy(s) && x.Mode1? && StepOk(s, x)
    ensures var t := Apply(s, x).state; NoneNew(s.viewers, t.viewers) && NoneNew(s.servers, t.servers)
  {
    Mode1Leaves(s, x.viewer, x.server, x.pid);
    hide Mode1Arrives, Tidy, Find, NoneNew, Lookup, Has, SameElsewhere;
    ElsewhereBringsNone(s, Apply(s, x).state, NextCode(s.lastCode));
    assert NextCode(s.lastCode) < 0 by { InventedIsNegative(s); }
  }

  lemma {:induction false} InventedIsNegative(s: State)
    requires Tidy(s)
    ensures NextCode(s.lastCode) < 0
  {
  }

  lemma {:induction false} ViewerBrings(s: State, leaked: seq<int>, x: Step)
    requires Inv(s, leaked) && StepOk(s, x) && x.Viewer?
    ensures var t := Apply(s, x).state;
            && (if x.listed then OneNew(s.viewers, t.viewers, x.code, x.socket) else NoneNew(s.viewers, t.viewers))
            && NoneNew(s.servers, t.servers)
  {
    ViewerAdmittedIff(s, leaked, x.code, x.socket, x.pid, x.listed);
    hide ViewerArrives, Inv, Find, SameElsewhere;
    SameBringsNone(s);
    if Admitted(s.viewers, x.code, x.listed) {
      ElsewhereBringsNone(s, Apply(s, x).state, x.code);
    }
  }

  lemma {:induction false} ServerBrings(s: State, leaked: seq<int>, x: Step)
    requires Inv(s, leaked) && StepOk(s, x) && x.Server?
    ensures var t := Apply(s, x).state;
            && (if x.listed then OneNew(s.servers, t.servers, x.code, x.socket) else NoneNew(s.servers, t.servers))
            && NoneNew(s.viewers, t.viewers)
  {
    ServerAdmittedIff(s, leaked, x.code, x.socket, x.pid, x.listed);
    hide ServerArrives, Inv, Find, SameElsewhere;
    SameBringsNone(s);
    if Admitted(s.servers, x.code, x.listed) {
      ElsewhereBringsNone(s, Apply(s, x).state, x.code);
    }
  }

  /** The connection an entry stands for came with a code on the list. */
  ghost predicate CameListed(xs: seq<Step>, code: int, socket: int, viewerSide: bool) {
    if viewerSide then exists x <- xs :: x.Viewer? && x.code == code && x.socket == socket && x.listed
    else exists x <- xs :: x.Server? && x.code == code && x.socket == socket && x.listed
  }

  /** What one step may bring into the tables. */
  lemma {:induction false} StepBrings(s: State, leaked: seq<int>, x: Step)
    requires Inv(s, leaked) && StepOk(s, x)
    ensures var t := Apply(s, x).state;
            && (if x.Viewer? && x.listed then OneNew(s.viewers, t.viewers, x.code, x.socket) else NoneNew(s.viewers, t.viewers))
            && (if x.Server? && x.listed then OneNew(s.servers, t.servers, x.code, x.socket) else NoneNew(s.servers, t.servers))
  {
    hide NoneNew, OneNew, ViewerArrives, ServerArrives, Mode1Arrives, Sweep, Reap, StepOk;
    match x
    case Viewer(_, _, _, _) => ViewerBrings(s, leaked, x);
    case Server(_, _, _, _) => ServerBrings(s, leaked, x);
    case Mode1(_, _, _) => Mode1BringsNone(s, x);
    case SweepAll(goneViewers, goneServers) => SweepBringsNone(s, leaked, |s.viewers|, goneViewers, goneServers);
    case ReapAll(exits) => ReapBringsNone(s, leaked, |s.procs|, exits);
    case Beat => SameBringsNone(s);
  }

  /** Admission over runs: whoever is in a table under a code of its own came with a code on the list. */
  lemma {:induction false} OnlyTheListed(n: nat, xs: seq<Step>, code: int)
    requires RunOk(Initial(n), xs) && code > 0
    ensures var t := Run(Initial(n), xs).state;
            && (Has(t.viewers, code) ==> CameListed(xs, code, Lookup(t.viewers, code).value.socket, true))
            && (Has(t.servers, code) ==> CameListed(xs, code, Lookup(t.servers, code).value.socket, false))
    decreases |xs|
  {
    hide Inv, Apply, StepOk, Find;
    if xs == [] {
      NobodyAtFirst(n, code);
    } else {
      var before, x := xs[..|xs| - 1], xs[|xs| - 1];
      OnlyTheListed(n, before, code);
      RunKeeps(n, before);
      StepBrings(Run(Initial(n), before).state, Leaks(Initial(n), before), x);
      assert x in xs && forall y <- before :: y in xs;
    }
  }

  lemma {:induction false} NobodyAtFirst(n: nat, code: int)
    requires code > 0
    ensures !Has(Initial(n).viewers, code) && !Has(Initial(n).servers, code)
  {
  }

  /** So no child ever relays for a connection whose code was not on the list, but in Mode 1. */
  lemma {:induction false} OnlyTheListedAreServed(n: nat, xs: seq<Step>, i: nat)
    requires RunOk(Initial(n), xs) && i < |Run(Initial(n), xs).state.procs| && Run(Initial(n), xs).state.procs[i].code > 0
    ensures var p := Run(Initial(n), xs).state.procs[i];
            CameListed(xs, p.code, p.viewer, true) && CameListed(xs, p.code, p.server, false)
  {
    hide Run, Initial, CameListed;
    RunKeeps(n, xs);
    var t := Run(Initial(n), xs).state;
    assert Relays(t, t.procs[i]);
    OnlyTheListed(n, xs, t.procs[i].code);
  }
}
