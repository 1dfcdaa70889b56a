/** Runs of the session broker that end badly, each reached from empty tables. */
module BrokerCases {
  import opened Tables
  import opened Broker
  import opened BrokerChildren
  import opened BrokerSystem

  lemma RunSnoc(s: State, xs: seq<Step>, x: Step)
    ensures Run(s, xs + [x]).state == Apply(Run(s, xs).state, x).state
    ensures RunOk(s, xs + [x]) <==> RunOk(s, xs) && StepOk(Run(s, xs).state, x)
    ensures Leaks(s, xs + [x]) == Leaks(s, xs) + Leak(Run(s, xs).state, x)
    ensures Abandons(s, xs + [x]) == Abandons(s, xs) + Abandon(Run(s, xs).state, x)
  {
    hide Apply, StepOk, Leak, Abandon;
    assert (xs + [x])[..|xs|] == xs;
  }

  /** One slot in each table. */
  lemma OneSlot(a: Slot, b: Slot, p: Proc, last: int, code: int)
    ensures var s := State([a], [b], [p], last);
            && Find(s.servers, code) == (if a.code == code then 0 else 1)
            && Find(s.viewers, code) == (if b.code == code then 0 else 1)
            && FindProc(s.procs, code) == (if p.code == code then 0 else 1)
            && FindPid(s.procs, code) == (if p.pid == code then 0 else 1)
  {
  }

  lemma InitialOne()
    ensures Initial(1) == State([Slot(0, false, 0)], [Slot(0, false, 0)], [Proc(0, 0, 0, 0)], 0)
  {
  }

  /** A Mode 1 connection that finds a waiting viewer in the only slot takes the server's slot alone, and
      leaves it active for good. */
  lemma Mode1CanLeak()
    ensures var xs := [Viewer(5, 7, 100, true), Mode1(8, 9, 101)];
            RunOk(Initial(1), xs) && Leaks(Initial(1), xs) == [-1]
  {
    var x, y := Viewer(5, 7, 100, true), Mode1(8, 9, 101);
    InitialOne();
    RunSnoc(Initial(1), [], x);
    RunSnoc(Initial(1), [x], y);
    assert [] + [x] == [x] && [x] + [y] == [x, y];
    assert Run(Initial(1), []).state == Initial(1);
    WaitingViewer();
  }

  lemma WaitingViewer()
    ensures var free := State([Slot(0, false, 0)], [Slot(0, false, 0)], [Proc(0, 0, 0, 0)], 0);
            var s := Apply(free, Viewer(5, 7, 100, true)).state;
            && StepOk(free, Viewer(5, 7, 100, true))
            && s == free.(viewers := [Slot(5, false, 7)])
            && StepOk(s, Mode1(8, 9, 101)) && Leak(s, Mode1(8, 9, 101)) == [-1]
            && Leak(free, Viewer(5, 7, 100, true)) == Abandon(free, Viewer(5, 7, 100, true)) == []
  {
    var f, p := Slot(0, false, 0), Proc(0, 0, 0, 0);
    OneSlot(f, f, p, 0, 0);
    OneSlot(f, f, p, 0, 5);
    OneSlot(f, f, p, 0, 100);
    var w := Slot(5, false, 7);
    OneSlot(f, w, p, 0, 0);
    OneSlot(f, w, p, 0, -1);
    OneSlot(f, w, p, 0, 101);
    assert [f][0 := w] == [w];
  }

  /** A viewer and a server meet, and their relay child is killed: its exit code is 0, and both entries stay
      active with no child. */
  lemma KilledChildStrands()
    ensures var xs := [Viewer(5, 7, 100, true), Server(5, 8, 101, true), ReapAll(map[0 := 0])];
            RunOk(Initial(1), xs) && Abandons(Initial(1), xs) == [5] && Stranded(Run(Initial(1), xs).state, 5)
  {
    var x, y, z := Viewer(5, 7, 100, true), Server(5, 8, 101, true), ReapAll(map[0 := 0]);
    var s := Initial(1);
    SessionRuns();
    ChildKilled();
    hide Initial, Apply, StepOk, Abandon, Stranded, Run, RunOk, Abandons;
    RunSnoc(s, [x, y], z);
    assert [x, y] + [z] == [x, y, z] && [] + [5] == [5];
    ReapIsOk(Run(s, [x, y]).state, map[0 := 0]);
    StrandedIn(1, [x, y, z], 5);
  }

  lemma StrandedIn(n: nat, xs: seq<Step>, code: int)
    requires RunOk(Initial(n), xs) && code in Abandons(Initial(n), xs)
    ensures Stranded(Run(Initial(n), xs).state, code)
  {
    hide Initial, Run, RunOk, Abandons, Stranded;
    assert xs + [] == xs;
    StrandedForGood(n, xs, [], code);
  }

  lemma SessionRuns()
    ensures var xs := [Viewer(5, 7, 100, true), Server(5, 8, 101, true)];
            && RunOk(Initial(1), xs) && Abandons(Initial(1), xs) == []
            && Run(Initial(1), xs).state == State([Slot(5, true, 8)], [Slot(5, true, 7)], [Proc(5, 101, 8, 7)], 0)
  {
    var x, y, s := Viewer(5, 7, 100, true), Server(5, 8, 101, true), Initial(1);
    InitialOne();
    NoSteps(s);
    WaitingViewer();
    SessionStarts();
    hide Initial, Apply, StepOk, Leak, Abandon, Run, RunOk, Abandons, Leaks, Find, FindPid, FindProc;
    OneStep(s, x);
    RunSnoc(s, [x], y);
    assert [x] + [y] == [x, y] && [] + [] == Abandons(s, []);
  }

  lemma OneStep(s: State, x: Step)
    ensures Run(s, [x]).state == Apply(s, x).state && (RunOk(s, [x]) <==> StepOk(s, x))
    ensures Abandons(s, [x]) == Abandon(s, x) && Leaks(s, [x]) == Leak(s, x)
  {
    NoSteps(s);
    hide Apply, StepOk, Leak, Abandon, Run, RunOk, Abandons, Leaks;
    RunSnoc(s, [], x);
    assert [] + [x] == [x] && [] + Abandon(s, x) == Abandon(s, x) && [] + Leak(s, x) == Leak(s, x);
  }

  lemma NoSteps(s: State)
    ensures RunOk(s, []) && Run(s, []).state == s && Abandons(s, []) == Leaks(s, []) == []
    ensures PeersRun(s, []) && Mode1Count([]) == 0
  {
  }

  lemma ReapIsOk(s: State, exits: map<nat, int>)
    ensures StepOk(s, ReapAll(exits)) && PeersOk(s, ReapAll(exits))
  {
  }

  lemma SessionStarts()
    ensures var s := State([Slot(0, false, 0)], [Slot(5, false, 7)], [Proc(0, 0, 0, 0)], 0);
            && StepOk(s, Server(5, 8, 101, true)) && Abandon(s, Server(5, 8, 101, true)) == []
            && Apply(s, Server(5, 8, 101, true)).state == State([Slot(5, true, 8)], [Slot(5, true, 7)], [Proc(5, 101, 8, 7)], 0)
  {
    var f, w, a, p := Slot(0, false, 0), Slot(5, false, 7), Slot(5, false, 8), Proc(0, 0, 0, 0);
    OneSlot(f, w, p, 0, 0);
    OneSlot(f, w, p, 0, 5);
    OneSlot(f, w, p, 0, 101);
    OneSlot(a, w, p, 0, 5);
    OneSlot(a, w, p, 0, 0);
    assert [f][0 := a] == [a];
    assert [a][0 := Slot(5, true, 8)] == [Slot(5, true, 8)] && [w][0 := Slot(5, true, 7)] == [Slot(5, true, 7)];
    assert [p][0 := Proc(5, 101, 8, 7)] == [Proc(5, 101, 8, 7)];
  }

  lemma ChildKilled()
    ensures var s := State([Slot(5, true, 8)], [Slot(5, true, 7)], [Proc(5, 101, 8, 7)], 0);
            Abandon(s, ReapAll(map[0 := 0])) == [5]
  {
    var s := State([Slot(5, true, 8)], [Slot(5, true, 7)], [Proc(5, 101, 8, 7)], 0);
    assert Reap(s, 0, map[0 := 0]).state == s;
    assert ReapAbandons(s, 0, map[0 := 0]) == [];
    assert ReapAbandons(s, 1, map[0 := 0]) == [] + SlotAbandons(s, 0, map[0 := 0]);
  }

  // ----- the wrap of the invented codes -----

  /** Mode 1 connections that find both tables full: only the counter moves. */
  function Turned(n: nat): seq<Step> {
    seq(n, i => Mode1(1, 1, 3))
  }

  lemma FullTablesCountOn(s: State)
    requires !Has(s.servers, 0) && !Has(s.viewers, 0)
    ensures Apply(s, Mode1(1, 1, 3)).state == s.(lastCode := NextCode(s.lastCode))
  {
  }

  lemma PeersSnoc(s: State, xs: seq<Step>, x: Step)
    ensures PeersRun(s, xs + [x]) <==> PeersRun(s, xs) && PeersOk(Run(s, xs).state, x)
    ensures Mode1Count(xs + [x]) == Mode1Count(xs) + if x.Mode1? then 1 else 0
  {
    hide Apply, PeersOk;
    assert (xs + [x])[..|xs|] == xs;
  }

  /** Both tables are full, and pid 3 is free to be given to a child that is never forked. */
  predicate Full(s: State) {
    !Has(s.servers, 0) && !Has(s.viewers, 0) && FindPid(s.procs, 3) == |s.procs| && s.lastCode <= 0
  }

  lemma {:induction false} CountsOn(s: State, xs: seq<Step>, n: nat)
    requires Full(Run(s, xs).state) && PeersRun(s, xs) && Run(s, xs).state.lastCode - n >= MIN_INVENTED_CODE
    ensures var t := Run(s, xs).state; Run(s, xs + Turned(n)).state == t.(lastCode := t.lastCode - n)
    ensures PeersRun(s, xs + Turned(n)) && Mode1Count(xs + Turned(n)) == Mode1Count(xs) + n
  {
    hide Apply, Find, FindPid, Run, PeersRun, Mode1Count;
    if n == 0 {
      assert xs + Turned(0) == xs;
    } else {
      CountsOn(s, xs, n - 1);
      var ys := xs + Turned(n - 1);
      assert xs + Turned(n) == ys + [Mode1(1, 1, 3)];
      RunSnoc(s, ys, Mode1(1, 1, 3));
      PeersSnoc(s, ys, Mode1(1, 1, 3));
      FullTablesCountOn(Run(s, ys).state);
    }
  }

  /** Two sessions fill the tables; connections are refused until the counter is at its end; the second
      session ends, and one more connection comes. */
  function WrapRun(): seq<Step> {
    [Mode1(1, 1, 1), Mode1(1, 1, 2)] + Turned(999998) + [ReapAll(map[1 := 1])] + [Mode1(1, 1, 4)]
  }

  lemma InitialTwo()
    ensures var f, p := Slot(0, false, 0), Proc(0, 0, 0, 0); Initial(2) == State([f, f], [f, f], [p, p], 0)
  {
  }

  lemma TwoSlots(a: Slot, b: Slot, code: int)
    ensures Find([a, b], code) == if a.code == code then 0 else if b.code == code then 1 else 2
  {
    assert [a, b][1..] == [b] && [b][1..] == [];
    assert Find([b], code) == if b.code == code then 0 else 1;
  }

  lemma TwoProcs(p: Proc, q: Proc, code: int)
    ensures FindProc([p, q], code) == if p.code == code then 0 else if q.code == code then 1 else 2
    ensures FindPid([p, q], code) == if p.pid == code then 0 else if q.pid == code then 1 else 2
  {
    assert [p, q][1..] == [q] && [q][1..] == [];
    assert FindProc([q], code) == if q.code == code then 0 else 1;
    assert FindPid([q], code) == if q.pid == code then 0 else 1;
  }

  lemma Session(code: int, pid: int)
    requires code == -1 || code == -2
    ensures var f, p := Slot(0, false, 0), Proc(0, 0, 0, 0);
            var a, c := Slot(-1, true, 1), Proc(-1, 1, 1, 1);
            var b, e := Slot(code, true, 1), Proc(code, pid, 1, 1);
            && (code == -1 ==> Apply(State([f, f], [f, f], [p, p], 0), Mode1(1, 1, pid)).state == State([b, f], [b, f], [e, p], -1))
            && (code == -2 ==> Apply(State([a, f], [a, f], [c, p], -1), Mode1(1, 1, pid)).state == State([a, b], [a, b], [c, e], -2))
  {
    var f, p := Slot(0, false, 0), Proc(0, 0, 0, 0);
    var a, c := Slot(-1, true, 1), Proc(-1, 1, 1, 1);
    var w, b, e := Slot(code, false, 1), Slot(code, true, 1), Proc(code, pid, 1, 1);
    TwoSlots(f, f, 0);
    TwoSlots(w, f, code);
    TwoSlots(a, f, 0);
    TwoSlots(a, w, code);
    TwoProcs(p, p, 0);
    TwoProcs(c, p, 0);
    assert [f, f][0 := w] == [w, f] && [w, f][0 := b] == [b, f] && [p, p][0 := e] == [e, p];
    assert [a, f][1 := w] == [a, w] && [a, w][1 := b] == [a, b] && [c, p][1 := e] == [c, e];
  }

  /** The second session ends, and its slots are free again. */
  lemma SecondEnds(last: int)
    ensures var a, b := Slot(-1, true, 1), Slot(-2, true, 1);
            var s := State([a, b], [a, b], [Proc(-1, 1, 1, 1), Proc(-2, 2, 1, 1)], last);
            Apply(s, ReapAll(map[1 := 1])).state ==
            State([a, Slot(0, false, 1)], [a, Slot(0, false, 1)], [Proc(-1, 1, 1, 1), Proc(0, 0, 1, 1)], last)
  {
    var a, b, c, e := Slot(-1, true, 1), Slot(-2, true, 1), Proc(-1, 1, 1, 1), Proc(-2, 2, 1, 1);
    var s, exits := State([a, b], [a, b], [c, e], last), map[1 := 1];
    TwoSlots(a, b, -2);
    TwoProcs(c, e, 2);
    assert Reap(s, 0, exits).state == s;
    assert Reap(s, 1, exits).state == ReapSlot(s, 0, exits).state == s;
    assert [a, b][1 := Slot(0, false, 1)] == [a, Slot(0, false, 1)];
    assert [c, e][1 := Proc(0, 0, 1, 1)] == [c, Proc(0, 0, 1, 1)];
    assert Reap(s, 2, exits).state == ReapSlot(s, 1, exits).state;
  }

  lemma TwoSessions()
    ensures var xs := [Mode1(1, 1, 1), Mode1(1, 1, 2)]; var a, b := Slot(-1, true, 1), Slot(-2, true, 1);
            && Run(Initial(2), xs).state == State([a, b], [a, b], [Proc(-1, 1, 1, 1), Proc(-2, 2, 1, 1)], -2)
            && PeersRun(Initial(2), xs) && Mode1Count(xs) == 2
  {
    var x, y, s := Mode1(1, 1, 1), Mode1(1, 1, 2), Initial(2);
    var f, p := Slot(0, false, 0), Proc(0, 0, 0, 0);
    InitialTwo();
    NoSteps(s);
    Session(-1, 1);
    Session(-2, 2);
    TwoProcs(p, p, 1);
    TwoProcs(Proc(-1, 1, 1, 1), p, 2);
    hide Initial, Apply, Run, PeersRun, Mode1Count, FindPid;
    RunSnoc(s, [], x);
    PeersSnoc(s, [], x);
    RunSnoc(s, [x], y);
    PeersSnoc(s, [x], y);
    assert [] + [x] == [x] && [x] + [y] == [x, y];
  }

  /** The bound on fresh codes is tight: one connection more than a million, and the first session, which
      still runs, finds its code given away again. */
  lemma {:induction false} WrapRepeatsACode()
    ensures PeersRun(Initial(2), WrapRun()) && Mode1Count(WrapRun()) == -MIN_INVENTED_CODE + 1
    ensures !Proper(Run(Initial(2), WrapRun()).state.servers)
  {
    var s, xs := Initial(2), [Mode1(1, 1, 1), Mode1(1, 1, 2)];
    var a, b := Slot(-1, true, 1), Slot(-2, true, 1);
    TwoSessions();
    TwoSlots(a, b, 0);
    TwoProcs(Proc(-1, 1, 1, 1), Proc(-2, 2, 1, 1), 3);
    hide Initial, Apply, Run, PeersRun, Mode1Count, Find, FindPid, Proper, Turned;
    CountsOn(s, xs, 999998);
    Wraps(s, xs + Turned(999998));
  }

  lemma {:induction false} Wraps(s: State, ys: seq<Step>)
    requires var a, b := Slot(-1, true, 1), Slot(-2, true, 1);
             Run(s, ys).state == State([a, b], [a, b], [Proc(-1, 1, 1, 1), Proc(-2, 2, 1, 1)], -1000000)
    requires PeersRun(s, ys)
    ensures var xs := ys + [ReapAll(map[1 := 1])] + [Mode1(1, 1, 4)];
            PeersRun(s, xs) && Mode1Count(xs) == Mode1Count(ys) + 1 && !Proper(Run(s, xs).state.servers)
  {
    var a, b := Slot(-1, true, 1), Slot(-2, true, 1);
    SecondEnds(-1000000);
    TwoSlots(a, Slot(0, false, 1), 0);
    TwoSlots(a, Slot(0, false, 1), -1);
    TwoProcs(Proc(-1, 1, 1, 1), Proc(0, 0, 1, 1), 4);
    hide Apply, Run, PeersRun, Mode1Count, Find, FindPid, Proper;
    var reap, last := ReapAll(map[1 := 1]), Mode1(1, 1, 4);
    ReapIsOk(Run(s, ys).state, map[1 := 1]);
    RunSnoc(s, ys, reap);
    PeersSnoc(s, ys, reap);
    var t := Run(s, ys + [reap]).state;
    RunSnoc(s, ys + [reap], last);
    PeersSnoc(s, ys + [reap], last);
    assert Apply(t, last).state == Mode1Arrives(t, 1, 1, 4).state by { Mode1Step(t, 1, 1, 4); }
    WrapCanRepeatACode(t, 1, 1, 4);
  }

  lemma Mode1Step(s: State, viewer: int, server: int, pid: int)
    ensures Apply(s, Mode1(viewer, server, pid)) == Mode1Arrives(s, viewer, server, pid)
  {
  }
}
