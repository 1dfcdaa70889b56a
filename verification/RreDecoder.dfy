/** RRE rectangles: a background, then subrectangles drawn one by one as they arrive. */
module RreDecoder {
  import opened Bytes
  import opened Canvas
  import opened DecoderIO

  /** The smallest step: the header, or one subrectangle. `subrects` is the signed count still to come; a
      header with the top bit set leaves it negative for good, and later rectangles then draw nothing. */
  function Unit(subrects: int, io: IO, r: Rect): (int, IO, Verdict) {
    if subrects == 0 then
      if |io.inp| < 8 then (subrects, io, Blocked)
      else
        var n := S32(io.inp, 0);
        var fb := Fill(io.fb, r.x, r.y, r.w, r.h, ColorAt(io.inp, 4));
        (n, IO(io.inp[8..], fb), if n > 0 then More else Finished)
    else if subrects < 0 then (subrects, io, Finished)
    else if |io.inp| < 12 then (subrects, io, Blocked)
    else
      var fb := Fill(io.fb, r.x + U16(io.inp, 4), r.y + U16(io.inp, 6), U16(io.inp, 8), U16(io.inp, 10), ColorAt(io.inp, 0));
      (subrects - 1, IO(io.inp[12..], fb), if subrects == 1 then Finished else More)
  }

  function Decode(subrects: int, io: IO, r: Rect): (int, IO, Verdict)
    decreases |io.inp|
  {
    var (n, io1, v) := Unit(subrects, io, r);
    if v == More then Decode(n, io1, r) else (n, io1, v)
  }

  lemma UnitExtends(subrects: int, io: IO, r: Rect, more: seq<byte>)
    requires Unit(subrects, io, r).2 != Blocked
    ensures var (n, io1, v) := Unit(subrects, io, r);
            Unit(subrects, Extend(io, more), r) == (n, Extend(io1, more), v)
  {
    hide Fill;
    if subrects >= 0 {
      SkipExtend(io, if subrects == 0 then 8 else 12, more);
    }
  }

  lemma {:induction false} CountReachesZero(subrects: int, io: IO, r: Rect)
    requires subrects > 0 && Decode(subrects, io, r).2 == Finished
    ensures Decode(subrects, io, r).0 == 0
    decreases |io.inp|
  {
    hide Fill;
    var (n, io1, v) := Unit(subrects, io, r);
    if v == More {
      CountReachesZero(n, io1, r);
    }
  }

  /** A finished rectangle leaves the decoder ready for the next exactly when its count, read as a signed
      number, was not negative. */
  lemma ReadyAfterwards(io: IO, r: Rect)
    requires |io.inp| >= 8 && Decode(0, io, r).2 == Finished
    ensures Decode(0, io, r).0 == 0 <==> S32(io.inp, 0) >= 0
  {
    hide Fill;
    var (n, io1, v) := Unit(0, io, r);
    if v == More {
      CountReachesZero(n, io1, r);
    }
  }

  /** After a count of 2^31 or more, every later RRE rectangle is taken as finished unread. */
  lemma StaleCountSkips(io: IO, r: Rect, later: IO, r': Rect)
    requires |io.inp| >= 8 && io.inp[0] >= 128
    ensures var (n, _, v) := Decode(0, io, r);
            v == Finished && n < 0 && Decode(n, later, r') == (n, later, Finished)
  {
    hide Fill;
    var n := S32(io.inp, 0);
    assert n < 0;
    assert Unit(n, later, r') == (n, later, Finished);
  }

  class Rre {
    var subrects: int

    constructor ()
      ensures subrects == 0
    {
      subrects := 0;
    }

    method DecodeRect(r: Rect, sock: Sock, display: Surface) returns (done: bool)
      modifies this, sock, display
      ensures (subrects, IO(sock.q, display.fb), if done then Finished else Blocked)
              == Decode(old(subrects), old(IO(sock.q, display.fb)), r)
    {
      hide Fill;
      ghost var end := Decode(subrects, IO(sock.q, display.fb), r);
      if subrects == 0 {
        if sock.Wait(8) {
          return false;
        }
        subrects := S32(sock.q, 0);
        display.fb := Fill(display.fb, r.x, r.y, r.w, r.h, ColorAt(sock.q, 4));
        sock.SkipBytes(8);
      }
      while subrects > 0
        invariant subrects > 0 ==> Decode(subrects, IO(sock.q, display.fb), r) == end
        invariant subrects <= 0 ==> (subrects, IO(sock.q, display.fb), Finished) == end
      {
        if sock.Wait(12) {
          return false;
        }
        display.fb := Fill(display.fb, r.x + U16(sock.q, 4), r.y + U16(sock.q, 6), U16(sock.q, 8), U16(sock.q, 10),
                           ColorAt(sock.q, 0));
        sock.SkipBytes(12);
        subrects := subrects - 1;
      }
      return true;
    }
  }
}
