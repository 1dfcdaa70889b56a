/** The event log of the session broker, replayed by table index, against the tables themselves. */
module BrokerLog {
  import opened Tables
  import opened Broker
  import opened BrokerRuns
  import opened BrokerChildren

  /** What an event listener knows of one slot. */
  datatype Seat = Seat(code: int, active: bool)

  datatype Picture = Picture(servers: seq<Seat>, viewers: seq<Seat>)

  const FREE := Seat(0, false)

  function Put(seats: seq<Seat>, i: nat, x: Seat): seq<Seat> {
    if i < |seats| then seats[i := x] else seats
  }

  function ReplayOne(p: Picture, e: Event): Picture {
    match e
    case ViewerConnect(i, code) => p.(viewers := Put(p.viewers, i, Seat(code, false)))
    case ViewerDisconnect(i, _) => p.(viewers := Put(p.viewers, i, FREE))
    case ServerConnect(i, code) => p.(servers := Put(p.servers, i, Seat(code, false)))
    case ServerDisconnect(i, _) => p.(servers := Put(p.servers, i, FREE))
    case SessionStart(si, vi, code) =>
      Picture(Put(p.servers, si, Seat(code, true)), Put(p.viewers, vi, Seat(code, true)))
    case SessionEnd(si, vi, _) => Picture(Put(p.servers, si, FREE), Put(p.viewers, vi, FREE))
    case Heartbeat => p
  }

  function Replay(p: Picture, es: seq<Event>): Picture
    decreases |es|
  {
    if es == [] then p else ReplayOne(Replay(p, es[..|es| - 1]), es[|es| - 1])
  }

  lemma {:induction false} ReplayAppend(p: Picture, a: seq<Event>, b: seq<Event>)
    ensures Replay(p, a + b) == Replay(Replay(p, a), b)
    decreases |b|
  {
    if b == [] {
      assert a + b == a;
    } else {
      var ab := a + b;
      assert ab[..|ab| - 1] == a + b[..|b| - 1];
      ReplayAppend(p, a, b[..|b| - 1]);
    }
  }

  /** The real slots, the given codes left out. */
  function Seats(t: Table, hidden: seq<int>): seq<Seat> {
    seq(|t|, i requires 0 <= i < |t| => if t[i].code in hidden then FREE else Seat(t[i].code, t[i].active))
  }

  function Tableau(s: State, hidden: seq<int>): Picture {
    Picture(Seats(s.servers, hidden), Seats(s.viewers, hidden))
  }

  lemma AddSeen(t: Table, code: int, socket: int, hidden: seq<int>)
    requires Proper(t) && Has(t, 0) && code !in hidden
    ensures Seats(Add(t, code, socket), hidden) == Put(Seats(t, hidden), Find(t, 0), Seat(code, false))
  {
  }

  lemma RemoveSeen(t: Table, code: int, hidden: seq<int>)
    requires Proper(t) && Has(t, code) && 0 !in hidden
    ensures Seats(Remove(t, code), hidden) == Put(Seats(t, hidden), Find(t, code), FREE)
  {
  }

  lemma ActivateSeen(t: Table, code: int, hidden: seq<int>)
    requires Proper(t) && Has(t, code) && code !in hidden
    ensures Seats(Activate(t, code), hidden) == Put(Seats(t, hidden), Find(t, code), Seat(code, true))
  {
  }

  lemma ReplayTwo(p: Picture, a: Event, b: Event)
    ensures Replay(p, [a]) == ReplayOne(p, a)
    ensures Replay(p, [a, b]) == ReplayOne(ReplayOne(p, a), b)
  {
    assert [a][..0] == [];
    assert [a, b][..1] == [a];
    assert Replay(p, [a]) == ReplayOne(Replay(p, []), a);
  }

  lemma ReplaySession(p: Picture, si: nat, vi: nat, code: int)
    ensures Replay(p, [ViewerConnect(vi, code), ServerConnect(si, code), SessionStart(si, vi, code)])
            == Picture(Put(Put(p.servers, si, Seat(code, false)), si, Seat(code, true)),
                       Put(Put(p.viewers, vi, Seat(code, false)), vi, Seat(code, true)))
  {
    var a, b, c := ViewerConnect(vi, code), ServerConnect(si, code), SessionStart(si, vi, code);
    assert [a, b, c][..2] == [a, b];
    ReplayTwo(p, a, b);
  }

  /** The tables are in order; leaked and gone hold what the log does not tell. */
  ghost predicate Sound(s: State, leaked: seq<int>, gone: seq<int>) {
    Inv(s, leaked) && AllServedBut(s, gone)
  }

  /** An idle or unpaired code of one table is not among the leaked or stranded ones, nor is a new one. */
  lemma NotHidden(s: State, leaked: seq<int>, gone: seq<int>, code: int)
    requires Sound(s, leaked, gone) && code != 0
    requires var a, b := Lookup(s.servers, code), Lookup(s.viewers, code);
             || (a.None? && b.None?) || (a.Some? && !a.value.active) || (b.Some? && !b.value.active)
             || (code > 0 && (a.None? || b.None?))
    ensures code !in leaked + gone
  {
    assert PairedBut(s, leaked, code);
    NotGone(s, gone, code);
  }

  lemma ViewerReplays(s: State, leaked: seq<int>, gone: seq<int>, code: int, socket: int, pid: int, listed: bool)
    requires Sound(s, leaked, gone) && StepOk(s, Viewer(code, socket, pid, listed))
    ensures var o := ViewerArrives(s, code, socket, pid, listed);
            Replay(Tableau(s, leaked + gone), o.events) == Tableau(o.state, leaked + gone)
  {
    var hidden := leaked + gone;
    if !Has(s.viewers, code) && listed && Has(s.viewers, 0) {
      var p, vi := Tableau(s, hidden), Find(s.viewers, 0);
      NotHidden(s, leaked, gone, code);
      AddProper(s.viewers, code, socket);
      AddSeen(s.viewers, code, socket, hidden);
      var t := Add(s.viewers, code, socket);
      if Has(s.servers, code) {
        var si := Find(s.servers, code);
        ActivateSeen(t, code, hidden);
        ActivateSeen(s.servers, code, hidden);
        ReplayTwo(p, ViewerConnect(vi, code), SessionStart(si, vi, code));
      } else {
        ReplayTwo(p, ViewerConnect(vi, code), Heartbeat);
      }
    }
  }

  lemma ServerReplays(s: State, leaked: seq<int>, gone: seq<int>, code: int, socket: int, pid: int, listed: bool)
    requires Sound(s, leaked, gone) && StepOk(s, Server(code, socket, pid, listed))
    ensures var o := ServerArrives(s, code, socket, pid, listed);
            Replay(Tableau(s, leaked + gone), o.events) == Tableau(o.state, leaked + gone)
  {
    var hidden := leaked + gone;
    if !Has(s.servers, code) && listed && Has(s.servers, 0) {
      var p, si := Tableau(s, hidden), Find(s.servers, 0);
      NotHidden(s, leaked, gone, code);
      AddProper(s.servers, code, socket);
      AddSeen(s.servers, code, socket, hidden);
      var t := Add(s.servers, code, socket);
      if Has(s.viewers, code) {
        var vi := Find(s.viewers, code);
        ActivateSeen(t, code, hidden);
        ActivateSeen(s.viewers, code, hidden);
        ReplayTwo(p, ServerConnect(si, code), SessionStart(si, vi, code));
      } else {
        ReplayTwo(p, ServerConnect(si, code), Heartbeat);
      }
    }
  }

  /** One side of a Mode 1 session: seen when announced, invisible when leaked. */
  lemma AddActiveSeen(t: Table, code: int, socket: int, hidden: seq<int>)
    requires Proper(t) && code != 0 && !Has(t, code) && code !in hidden
    ensures Has(t, 0) ==>
              Seats(AddActive(t, code, socket), hidden)
              == Put(Put(Seats(t, hidden), Find(t, 0), Seat(code, false)), Find(t, 0), Seat(code, true))
    ensures 0 !in hidden ==> Seats(AddActive(t, code, socket), hidden + [code]) == Seats(t, hidden)
  {
    if Has(t, 0) {
      AddProper(t, code, socket);
      AddSeen(t, code, socket, hidden);
      ActivateSeen(Add(t, code, socket), code, hidden);
      var u := AddActive(t, code, socket);
      assert u == t[Find(t, 0) := Slot(code, true, socket)];
      forall i | 0 <= i < |t|
        ensures Seats(u, hidden + [code])[i] == Seats(t, hidden)[i]
      {
        assert t[i].code != code;
      }
    } else {
      forall i | 0 <= i < |t|
        ensures Seats(t, hidden + [code])[i] == Seats(t, hidden)[i]
      {
        assert t[i].code != code;
      }
    }
  }

  lemma {:induction false} Mode1Announced(s: State, leaked: seq<int>, gone: seq<int>, viewer: int, server: int, pid: int)
    requires Sound(s, leaked, gone) && StepOk(s, Mode1(viewer, server, pid)) && Has(s.viewers, 0) && Has(s.servers, 0)
    ensures var o := Mode1Arrives(s, viewer, server, pid);
            Replay(Tableau(s, leaked + gone), o.events) == Tableau(o.state, leaked + gone)
  {
    var code := NextCode(s.lastCode);
    NotHidden(s, leaked, gone, code);
    AddActiveSeen(s.servers, code, server, leaked + gone);
    AddActiveSeen(s.viewers, code, viewer, leaked + gone);
    hide AddActive, Find, Seats, Inv, Replay, Put;
    ReplaySession(Tableau(s, leaked + gone), Find(s.servers, 0), Find(s.viewers, 0), code);
  }

  lemma Mode1Replays(s: State, leaked: seq<int>, gone: seq<int>, viewer: int, server: int, pid: int)
    requires Sound(s, leaked, gone) && StepOk(s, Mode1(viewer, server, pid))
    ensures var o := Mode1Arrives(s, viewer, server, pid);
            Replay(Tableau(s, leaked + gone), o.events)
            == Tableau(o.state, leaked + Leak(s, Mode1(viewer, server, pid)) + gone)
  {
    var code, leak, hidden := NextCode(s.lastCode), Leak(s, Mode1(viewer, server, pid)), leaked + gone;
    assert leak == [] || leak == [code];
    assert leaked + [] == leaked;
    if Has(s.viewers, 0) && Has(s.servers, 0) {
      Mode1Announced(s, leaked, gone, viewer, server, pid);
    } else {
      NotHidden(s, leaked, gone, code);
      AddActiveSeen(s.servers, code, server, hidden);
      AddActiveSeen(s.viewers, code, viewer, hidden);
      NothingAdded(s.servers, code, server);
      NothingAdded(s.viewers, code, viewer);
      hide AddActive, Find, Seats, Sound;
      var t := Mode1Arrives(s, viewer, server, pid).state;
      assert hidden + [] == hidden;
      assert Tableau(t, hidden + leak) == Tableau(s, hidden);
      SameHidden(t, hidden + leak, leaked + leak + gone);
    }
  }

  /** Only which codes are hidden matters, not their order. */
  lemma SameHidden(s: State, a: seq<int>, b: seq<int>)
    requires forall code :: code in a <==> code in b
    ensures Tableau(s, a) == Tableau(s, b)
  {
  }

  lemma NothingAdded(t: Table, code: int, socket: int)
    ensures !Has(t, 0) ==> AddActive(t, code, socket) == t
  {
  }

  lemma SweepSlotReplays(s: State, leaked: seq<int>, hidden: seq<int>, i: nat, goneViewers: set<nat>, goneServers: set<nat>)
    requires Inv(s, leaked) && 0 !in hidden
    ensures var o := SweepSlot(s, i, goneViewers, goneServers);
            Replay(Tableau(s, hidden), o.events) == Tableau(o.state, hidden)
  {
    var a := SweepViewer(s, i, goneViewers);
    assert Inv(a.state, leaked) by {
      SweepSlotKeeps(s, leaked, i, goneViewers, {});
    }
    assert Replay(Tableau(s, hidden), a.events) == Tableau(a.state, hidden) by {
      if a.events != [] {
        FindUnique(s.viewers, i);
        RemoveSeen(s.viewers, s.viewers[i].code, hidden);
        ReplayTwo(Tableau(s, hidden), a.events[0], Heartbeat);
      }
    }
    var b := SweepServer(a.state, i, goneServers);
    assert Replay(Tableau(a.state, hidden), b.events) == Tableau(b.state, hidden) by {
      if b.events != [] {
        FindUnique(s.servers, i);
        RemoveSeen(s.servers, s.servers[i].code, hidden);
        ReplayTwo(Tableau(a.state, hidden), b.events[0], Heartbeat);
      }
    }
    ReplayAppend(Tableau(s, hidden), a.events, b.events);
  }

  lemma {:induction false} SweepReplays(s: State, leaked: seq<int>, hidden: seq<int>, n: nat, goneViewers: set<nat>, goneServers: set<nat>)
    requires Inv(s, leaked) && 0 !in hidden
    ensures var o := Sweep(s, n, goneViewers, goneServers);
            Replay(Tableau(s, hidden), o.events) == Tableau(o.state, hidden)
  {
    hide Inv, SweepSlot, Tableau;
    if n > 0 {
      SweepKeeps(s, leaked, n - 1, goneViewers, goneServers);
      SweepReplays(s, leaked, hidden, n - 1, goneViewers, goneServers);
      var a := Sweep(s, n - 1, goneViewers, goneServers);
      SweepSlotReplays(a.state, leaked, hidden, n - 1, goneViewers, goneServers);
      ReplayAppend(Tableau(s, hidden), a.events, SweepSlot(a.state, n - 1, goneViewers, goneServers).events);
    }
  }

  lemma NothingReplayed(p: Picture)
    ensures Replay(p, []) == p
  {
  }

  /** Hiding a code leaves free seats where it sits. */
  lemma HideSeen(t: Table, code: int, hidden: seq<int>)
    requires Proper(t) && Has(t, code) && code != 0
    ensures Seats(t, hidden + [code]) == Put(Seats(t, hidden), Find(t, code), FREE)
  {
  }

  /** The end of a session is told either way; the entries that a lost child leaves behind are not. */
  lemma ExitReplays(s: State, leaked: seq<int>, hidden: seq<int>, exitCode: int, pid: int)
    requires Inv(s, leaked) && 0 !in hidden && pid != 0 && FindPid(s.procs, pid) < |s.procs|
    ensures var o := ChildExits(s, exitCode, pid);
            Replay(Tableau(s, hidden), o.events)
            == Tableau(o.state, hidden + if GoodExit(exitCode) then [] else [s.procs[FindPid(s.procs, pid)].code])
  {
    var code := s.procs[FindPid(s.procs, pid)].code;
    BothEndsFound(s, pid);
    RemoveSeen(s.servers, code, hidden);
    RemoveSeen(s.viewers, code, hidden);
    HideSeen(s.servers, code, hidden);
    HideSeen(s.viewers, code, hidden);
    assert hidden + [] == hidden;
    ReplayTwo(Tableau(s, hidden), SessionEnd(Find(s.servers, code), Find(s.viewers, code), code), Heartbeat);
  }

  lemma ReapSlotReplays(s: State, leaked: seq<int>, hidden: seq<int>, i: nat, exits: map<nat, int>)
    requires Inv(s, leaked) && 0 !in hidden
    ensures var o := ReapSlot(s, i, exits);
            0 !in SlotAbandons(s, i, exits) &&
            Replay(Tableau(s, hidden), o.events) == Tableau(o.state, hidden + SlotAbandons(s, i, exits))
  {
    hide ChildExits, Tableau, Inv, Replay;
    assert hidden + [] == hidden;
    NothingReplayed(Tableau(s, hidden));
    if i < |s.procs| && s.procs[i].code != 0 && i in exits {
      PidIsFound(s, leaked, i);
      ExitReplays(s, leaked, hidden, exits[i], s.procs[i].pid);
    }
  }

  lemma {:induction false} ReapReplays(s: State, leaked: seq<int>, hidden: seq<int>, n: nat, exits: map<nat, int>)
    requires Inv(s, leaked) && 0 !in hidden
    ensures var o := Reap(s, n, exits);
            0 !in ReapAbandons(s, n, exits) &&
            Replay(Tableau(s, hidden), o.events) == Tableau(o.state, hidden + ReapAbandons(s, n, exits))
  {
    hide ReapSlot, SlotAbandons, Tableau, Inv;
    if n == 0 {
      assert hidden + [] == hidden;
    } else {
      ReapKeeps(s, leaked, n - 1, exits);
      ReapReplays(s, leaked, hidden, n - 1, exits);
      var a := Reap(s, n - 1, exits);
      var so := hidden + ReapAbandons(s, n - 1, exits);
      ReapSlotReplays(a.state, leaked, so, n - 1, exits);
      ReplayAppend(Tableau(s, hidden), a.events, ReapSlot(a.state, n - 1, exits).events);
      assert hidden + ReapAbandons(s, n, exits) == so + SlotAbandons(a.state, n - 1, exits);
    }
  }

  lemma OtherStepReplays(s: State, leaked: seq<int>, gone: seq<int>, x: Step)
    requires Sound(s, leaked, gone) && StepOk(s, x) && !x.Mode1? && !x.ReapAll?
    ensures Replay(Tableau(s, leaked + gone), Apply(s, x).events) == Tableau(Apply(s, x).state, leaked + gone)
  {
    assert Inv(s, leaked) && 0 !in leaked + gone;
    hide Sound, Inv, ViewerArrives, ServerArrives, Sweep, Tableau, Replay, StepOk;
    match x
    case Viewer(code, socket, pid, listed) => ViewerReplays(s, leaked, gone, code, socket, pid, listed);
    case Server(code, socket, pid, listed) => ServerReplays(s, leaked, gone, code, socket, pid, listed);
    case SweepAll(goneViewers, goneServers) => SweepReplays(s, leaked, leaked + gone, |s.viewers|, goneViewers, goneServers);
    case Beat => ReplayTwo(Tableau(s, leaked + gone), Heartbeat, Heartbeat);
  }

  lemma StepReplays(s: State, leaked: seq<int>, gone: seq<int>, x: Step)
    requires Sound(s, leaked, gone) && StepOk(s, x)
    ensures Replay(Tableau(s, leaked + gone), Apply(s, x).events)
            == Tableau(Apply(s, x).state, leaked + Leak(s, x) + (gone + Abandon(s, x)))
  {
    assert Inv(s, leaked) && 0 !in leaked + gone;
    hide Sound, Inv, ViewerArrives, ServerArrives, Mode1Arrives, Sweep, Reap, Tableau, Replay, ReapAbandons, StepOk;
    if x.Mode1? {
      assert gone + Abandon(s, x) == gone;
      Mode1Replays(s, leaked, gone, x.viewer, x.server, x.pid);
    } else if x.ReapAll? {
      assert leaked + Leak(s, x) == leaked;
      ReapReplays(s, leaked, leaked + gone, |s.procs|, x.exits);
      assert leaked + gone + Abandon(s, x) == leaked + (gone + Abandon(s, x));
    } else {
      assert leaked + Leak(s, x) == leaked && gone + Abandon(s, x) == gone;
      OtherStepReplays(s, leaked, gone, x);
    }
  }

  /** What the log of a run does not tell: leaked entries, and those of lost children. */
  function Untold(n: nat, xs: seq<Step>): seq<int> {
    Leaks(Initial(n), xs) + Abandons(Initial(n), xs)
  }

  /**
    * Replaying the whole log by table index rebuilds code and active flag of every
    * slot; the entries leaked by Mode 1 or left by a lost child, and only they, show as free.
    */
  lemma {:induction false} LogReplays(n: nat, xs: seq<Step>)
    requires RunOk(Initial(n), xs)
    ensures Replay(Tableau(Initial(n), []), Run(Initial(n), xs).events)
            == Tableau(Run(Initial(n), xs).state, Untold(n, xs))
    decreases |xs|
  {
    hide Inv, AllServedBut, Apply, StepOk, Initial, Leak, Abandon, Tableau;
    if xs == [] {
      assert Untold(n, xs) == [];
    } else {
      var ys, x := xs[..|xs| - 1], xs[|xs| - 1];
      LogReplays(n, ys);
      RunKeeps(n, ys);
      RunServes(n, ys);
      var a := Run(Initial(n), ys);
      StepReplays(a.state, Leaks(Initial(n), ys), Abandons(Initial(n), ys), x);
      ReplayAppend(Tableau(Initial(n), []), a.events, Apply(a.state, x).events);
    }
  }

  /** The log tells the whole truth about the tables exactly when no Mode 1 connection failed half way
      and no listed child ended outside 1 to 5. */
  lemma {:induction false} LogIsTrueUnlessLeaked(n: nat, xs: seq<Step>)
    requires RunOk(Initial(n), xs)
    ensures Replay(Tableau(Initial(n), []), Run(Initial(n), xs).events) == Tableau(Run(Initial(n), xs).state, [])
            <==> Leaks(Initial(n), xs) == [] && Abandons(Initial(n), xs) == []
  {
    hide Initial, Run, Leaks, Abandons, Replay;
    LogReplays(n, xs);
    RunKeeps(n, xs);
    RunServes(n, xs);
    var s, leaked, gone := Run(Initial(n), xs).state, Leaks(Initial(n), xs), Abandons(Initial(n), xs);
    var hidden := leaked + gone;
    if hidden != [] {
      var code := hidden[0];
      assert code in leaked || code in gone;
      assert code != 0 && PairedBut(s, leaked, code) && ServedBut(s, gone, code);
      var i, j := Find(s.servers, code), Find(s.viewers, code);
      assert i < |s.servers| ==> Seats(s.servers, hidden)[i] != Seats(s.servers, [])[i];
      assert j < |s.viewers| ==> Seats(s.viewers, hidden)[j] != Seats(s.viewers, [])[j];
    }
  }

  /** The same for pairing: every code is paired exactly when nothing leaked. */
  lemma {:induction false} PairedUnlessLeaked(n: nat, xs: seq<Step>)
    requires RunOk(Initial(n), xs)
    ensures (forall code :: code != 0 ==> Paired(Run(Initial(n), xs).state, code)) <==> Leaks(Initial(n), xs) == []
  {
    hide Initial, Run, Leaks;
    RunKeeps(n, xs);
    var s, leaked := Run(Initial(n), xs).state, Leaks(Initial(n), xs);
    forall code | code != 0 && code !in leaked
      ensures Paired(s, code)
    {
      assert PairedBut(s, leaked, code);
    }
    if leaked != [] {
      var code := leaked[0];
      assert PairedBut(s, leaked, code);
      assert !Paired(s, code);
    }
  }
}
