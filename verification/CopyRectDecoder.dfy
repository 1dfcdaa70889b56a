/** CopyRect rectangles: four bytes name the source position. */
module CopyRectDecoder {
  import opened Bytes
  import opened Canvas
  import opened DecoderIO

  function Unit(io: IO, r: Rect): (IO, Verdict) {
    if |io.inp| < 4 then (io, Blocked)
    else
      var fb := if r.w == 0 || r.h == 0 then io.fb
                else Draw(io.fb, io.fb, U16(io.inp, 0), U16(io.inp, 2), r.x, r.y, r.w, r.h);
      (IO(io.inp[4..], fb), Finished)
  }

  lemma UnitExtends(io: IO, r: Rect, more: seq<byte>)
    requires Unit(io, r).1 != Blocked
    ensures Unit(Extend(io, more), r) == (Extend(Unit(io, r).0, more), Unit(io, r).1)
  {
    hide Draw;
    SkipExtend(io, 4, more);
  }

  class CopyRect {
    constructor ()
    {
    }

    method DecodeRect(r: Rect, sock: Sock, display: Surface) returns (done: bool)
      modifies sock, display
      ensures (IO(sock.q, display.fb), if done then Finished else Blocked) == Unit(old(IO(sock.q, display.fb)), r)
    {
      if sock.Wait(4) {
        return false;
      }
      var deltaX, deltaY := U16(sock.q, 0), U16(sock.q, 2);
      sock.SkipBytes(4);
      if r.w == 0 || r.h == 0 {
        return true;
      }
      display.fb := Draw(display.fb, display.fb, deltaX, deltaY, r.x, r.y, r.w, r.h);
      return true;
    }
  }
}
