/** The heartbeats in the event log. */
module BrokerHeartbeats {
  import opened Tables
  import opened Broker

  function Heartbeats(es: seq<Event>): nat {
    if es == [] then 0 else Heartbeats(es[..|es| - 1]) + if es[|es| - 1] == Heartbeat then 1 else 0
  }

  predicate NoHeartbeat(es: seq<Event>) {
    forall i :: 0 <= i < |es| ==> es[i] != Heartbeat
  }

  lemma {:induction false} SilentCounts(es: seq<Event>)
    requires NoHeartbeat(es)
    ensures Heartbeats(es) == 0
    decreases |es|
  {
    if es != [] {
      SilentCounts(es[..|es| - 1]);
    }
  }

  lemma {:induction false} HeartbeatsAppend(a: seq<Event>, b: seq<Event>)
    ensures Heartbeats(a + b) == Heartbeats(a) + Heartbeats(b)
    decreases |b|
  {
    if b == [] {
      assert a + b == a;
    } else {
      assert (a + b)[..|a + b| - 1] == a + b[..|b| - 1];
      HeartbeatsAppend(a, b[..|b| - 1]);
    }
  }

  lemma {:induction false} SweepIsSilent(s: State, n: nat, goneViewers: set<nat>, goneServers: set<nat>)
    ensures NoHeartbeat(Sweep(s, n, goneViewers, goneServers).events)
    decreases n
  {
    hide Remove, Find;
    if n > 0 {
      SweepIsSilent(s, n - 1, goneViewers, goneServers);
    }
  }

  lemma {:induction false} ReapIsSilent(s: State, n: nat, exits: map<nat, int>)
    ensures NoHeartbeat(Reap(s, n, exits).events)
    decreases n
  {
    hide Remove, RemoveProc, Find;
    if n > 0 {
      ReapIsSilent(s, n - 1, exits);
    }
  }

  function Beats(xs: seq<Step>): nat
    decreases |xs|
  {
    if xs == [] then 0 else Beats(xs[..|xs| - 1]) + if xs[|xs| - 1] == Beat then 1 else 0
  }

  /** The log holds one heartbeat for every beat of the run, and no others. */
  lemma {:induction false} EveryBeatIsLogged(s: State, xs: seq<Step>)
    ensures Heartbeats(Run(s, xs).events) == Beats(xs)
    decreases |xs|
  {
    if xs != [] {
      var before, x := xs[..|xs| - 1], xs[|xs| - 1];
      EveryBeatIsLogged(s, before);
      var t := Run(s, before).state;
      BeatOrSilent(t, x);
      HeartbeatsAppend(Run(s, before).events, Apply(t, x).events);
    }
  }

  lemma {:induction false} BeatOrSilent(s: State, x: Step)
    ensures Heartbeats(Apply(s, x).events) == if x == Beat then 1 else 0
  {
    hide Add, Activate, AddActive, AddProc, Find, Sweep, Reap;
    if x == Beat {
      assert Apply(s, x).events == [Heartbeat] && [Heartbeat][..0] == [];
    } else {
      SweepIsSilent(s, |s.viewers|, if x.SweepAll? then x.goneViewers else {}, if x.SweepAll? then x.goneServers else {});
      ReapIsSilent(s, |s.procs|, if x.ReapAll? then x.exits else map[]);
      SilentCounts(Apply(s, x).events);
    }
  }
}
