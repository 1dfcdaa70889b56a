/**
  * The event interface: events wait in a bounded fifo until a child process is
  * forked that takes all of them; while that child runs, new ones wait.
  */
module EventQueue {
  const MAX_FIFO_EVENTS := 500

  /** handed is history: what each forked child found in its copy of the fifo. lost counts refused events. */
  datatype Queue<T> = Queue(fifo: seq<T>, child: bool, handed: seq<seq<T>>, lost: nat)

  function Empty<T>(): Queue<T> {
    Queue([], false, [], 0)
  }

  function Post<T>(q: Queue<T>, e: T): Queue<T> {
    if |q.fifo| != MAX_FIFO_EVENTS then q.(fifo := q.fifo + [e]) else q.(lost := q.lost + 1)
  }

  function PostAll<T>(q: Queue<T>, es: seq<T>): Queue<T>
    decreases |es|
  {
    if es == [] then q else Post(PostAll(q, es[..|es| - 1]), es[|es| - 1])
  }

  lemma {:induction false} PostAllAppend<T>(q: Queue<T>, a: seq<T>, b: seq<T>)
    ensures PostAll(q, a + b) == PostAll(PostAll(q, a), b)
    decreases |b|
  {
    if b == [] {
      assert a + b == a;
    } else {
      assert (a + b)[..|a + b| - 1] == a + b[..|b| - 1];
      PostAllAppend(q, a, b[..|b| - 1]);
    }
  }

  /** handleRepeaterEvents; ended says whether waitpid finds the event child gone. */
  function Handle<T>(q: Queue<T>, ended: bool): Queue<T> {
    if q.child then q.(child := !ended)
    else if q.fifo != [] then q.(fifo := [], child := true, handed := q.handed + [q.fifo])
    else q
  }

  function Flatten<T>(xs: seq<seq<T>>): seq<T>
    decreases |xs|
  {
    if xs == [] then [] else Flatten(xs[..|xs| - 1]) + xs[|xs| - 1]
  }

  /** Every event accepted so far: those handed to children, then those still waiting. */
  function Accepted<T>(q: Queue<T>): seq<T> {
    Flatten(q.handed) + q.fifo
  }

  function Room<T>(q: Queue<T>, n: nat): nat {
    if |q.fifo| >= MAX_FIFO_EVENTS then 0 else if n <= MAX_FIFO_EVENTS - |q.fifo| then n else MAX_FIFO_EVENTS - |q.fifo|
  }

  /** A burst of events is accepted in order up to the free room; the rest is refused and nothing else is disturbed. */
  lemma {:induction false} PostAllAccepts<T>(q: Queue<T>, es: seq<T>)
    requires |q.fifo| <= MAX_FIFO_EVENTS
    ensures var r := PostAll(q, es);
            && Accepted(r) == Accepted(q) + es[..Room(q, |es|)]
            && r.lost == q.lost + |es| - Room(q, |es|)
            && |r.fifo| == |q.fifo| + Room(q, |es|) <= MAX_FIFO_EVENTS
            && r.handed == q.handed && r.child == q.child
    decreases |es|
  {
    if es == [] {
      assert Accepted(q) == Accepted(q) + es[..0];
    } else {
      var n := |es| - 1;
      PostAllAccepts(q, es[..n]);
      var p := PostAll(q, es[..n]);
      if |p.fifo| != MAX_FIFO_EVENTS {
        assert Accepted(Post(p, es[n])) == Accepted(p) + [es[n]];
        assert es[..n][..Room(q, n)] + [es[n]] == es[..Room(q, n + 1)];
      } else {
        assert es[..n][..Room(q, n)] == es[..Room(q, n + 1)];
      }
    }
  }

  /** Handing the fifo to a child neither loses, repeats nor reorders an event. */
  lemma {:induction false} HandleKeeps<T>(q: Queue<T>, ended: bool)
    ensures Accepted(Handle(q, ended)) == Accepted(q)
    ensures Handle(q, ended).lost == q.lost
    ensures |Handle(q, ended).fifo| <= |q.fifo|
  {
    if !q.child && q.fifo != [] {
      var h := q.handed + [q.fifo];
      assert h[..|h| - 1] == q.handed;
    }
  }

  /** Children take turns: while one runs nothing is handed over, once it is seen to have ended the next one
      takes all that waits, and none is forked for nothing; so two looks empty the fifo. */
  lemma {:induction false} ChildrenTakeTurns<T>(q: Queue<T>, ended: bool)
    ensures q.child ==> Handle(q, false) == q && Handle(q, true) == q.(child := false)
    ensures !q.child && q.fifo != [] ==> Handle(q, ended) == Queue([], true, q.handed + [q.fifo], q.lost)
    ensures !q.child && q.fifo == [] ==> Handle(q, ended) == q
    ensures Handle(Handle(q, true), ended).fifo == []
  {
  }
}
