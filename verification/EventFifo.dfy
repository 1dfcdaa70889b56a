/** The ring buffer behind the event interface. */
module EventFifo {
  import opened EventQueue

  /** n elements of the ring from index tail on, going round at the end. */
  function Round<T>(ring: seq<T>, tail: nat, n: nat): (s: seq<T>)
    requires |ring| == MAX_FIFO_EVENTS
    ensures |s| == n
  {
    seq(n, k requires 0 <= k < n => ring[(tail + k) % MAX_FIFO_EVENTS])
  }

  lemma RoundAppend<T>(ring: seq<T>, tail: nat, n: nat, e: T)
    requires |ring| == MAX_FIFO_EVENTS && tail < MAX_FIFO_EVENTS && n < MAX_FIFO_EVENTS
    ensures Round(ring[(tail + n) % MAX_FIFO_EVENTS := e], tail, n + 1) == Round(ring, tail, n) + [e]
  {
  }

  lemma RoundDrop<T>(ring: seq<T>, tail: nat, n: nat)
    requires |ring| == MAX_FIFO_EVENTS && tail < MAX_FIFO_EVENTS && 0 < n <= MAX_FIFO_EVENTS
    ensures Round(ring, tail, n) == [ring[tail]] + Round(ring, (tail + 1) % MAX_FIFO_EVENTS, n - 1)
  {
  }

  function Advance(index: nat): (r: nat)
    requires index < MAX_FIFO_EVENTS
    ensures r < MAX_FIFO_EVENTS && r == (index + 1) % MAX_FIFO_EVENTS
  {
    if index < MAX_FIFO_EVENTS - 1 then index + 1 else 0
  }

  class Fifo<T(0)> {
    const ring: array<T>
    var head: nat
    var tail: nat
    var items: nat
    var child: bool
    ghost var handed: seq<seq<T>>
    ghost var lost: nat

    ghost predicate Valid()
      reads this
    {
      && ring.Length == MAX_FIFO_EVENTS
      && head < MAX_FIFO_EVENTS && tail < MAX_FIFO_EVENTS && items <= MAX_FIFO_EVENTS
      && head == (tail + items) % MAX_FIFO_EVENTS
    }

    /** The stored events, oldest first, wherever they lie in the ring. */
    ghost function Contents(): (s: seq<T>)
      requires Valid()
      reads this, ring
      ensures |s| == items
    {
      Round(ring[..], tail, items)
    }

    ghost function Value(): Queue<T>
      requires Valid()
      reads this, ring
    {
      Queue(Contents(), child, handed, lost)
    }

    constructor ()
      ensures Valid() && fresh(ring) && Value() == Empty()
    {
      ring := new T[MAX_FIFO_EVENTS];
      head, tail, items, child := 0, 0, 0, false;
      handed, lost := [], 0;
    }

    method Send(e: T) returns (ok: bool)
      requires Valid()
      modifies this, ring
      ensures Valid() && Value() == Post(old(Value()), e)
      ensures ok <==> old(items) < MAX_FIFO_EVENTS
    {
      ok := items != MAX_FIFO_EVENTS;
      if ok {
        RoundAppend(ring[..], tail, items, e);
        ghost var was := ring[..];
        ring[head] := e;
        assert ring[..] == was[head := e];
        head := Advance(head);
        items := items + 1;
      } else {
        lost := lost + 1;
      }
    }

    method Clear()
      requires Valid()
      modifies this
      ensures Valid() && Contents() == []
      ensures child == old(child) && handed == old(handed) && lost == old(lost)
    {
      head, tail, items := 0, 0, 0;
    }

    /** The parent's side of the fork: the child is left with a copy of the fifo, the parent's own is cleared. */
    method HandleEvents(ended: bool)
      requires Valid()
      modifies this
      ensures Valid() && Value() == Handle(old(Value()), ended)
    {
      if !child {
        if items != 0 {
          handed := handed + [Contents()];
          child := true;
          Clear();
        }
      } else if ended {
        child := false;
      }
    }

    /** The child's loop over its copy: takes out every event, oldest first. */
    method Drain() returns (sent: seq<T>)
      requires Valid()
      modifies this
      ensures Valid() && Contents() == []
      ensures sent == old(Contents())
    {
      hide Round;
      sent := [];
      while items != 0
        invariant Valid()
        invariant sent + Contents() == old(Contents())
        decreases items
      {
        RoundDrop(ring[..], tail, items);
        var e := ring[tail];
        items := items - 1;
        tail := Advance(tail);
        sent := sent + [e];
      }
    }
  }
}
