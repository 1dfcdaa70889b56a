/** The update loop and its decoder objects, as the original runs them, proved to do what the machine of
    smallest steps does until it waits. */
module RfbClient {
  import opened Bytes
  import opened Wrappers
  import opened Canvas
  import opened DecoderIO
  import opened RfbMachine
  import RawDecoder
  import CopyRectDecoder
  import RreDecoder
  import HextileDecoder
  import HextileClass

  // ----- a decoder call is a run of steps -----

  /** A machine inside a rectangle of the given encoding. */
  predicate Inside(s: Rfb, encoding: int) {
    !s.halted && s.rects > 0 && s.encoding == Some(encoding)
  }

  /** s runs to where the decoder left off: at the end of the rectangle, waiting, or failed. */
  ghost predicate LeadsTo(s: Rfb, t: Rfb, v: Verdict) {
    && Inside(t, if s.encoding.Some? then s.encoding.value else 0)
    && t.depth8 == s.depth8 && |t.io.inp| <= |s.io.inp|
    && (v == Finished ==> Run(s) == Run(FinishRect(t)))
    && (v == Blocked ==> Run(s) == t && Step(t).None?)
    && (v == Broken ==> Run(s).halted)
  }

  lemma RunStep(s: Rfb)
    requires Step(s).Some?
    ensures Run(s) == Run(Step(s).value)
  {
    StepProgress(s);
  }

  lemma RunHalted(s: Rfb)
    requires s.halted
    ensures Run(s) == s
  {
  }

  lemma RunWaiting(s: Rfb)
    requires Step(s).None?
    ensures Run(s) == s
  {
  }

  /** One decoder step, seen by the machine. */
  lemma UnitLeadsTo(s: Rfb)
    requires !s.halted && s.rects > 0 && s.encoding.Some?
    ensures var (t, v) := RectUnit(s);
            && (v == More ==> Step(s) == Some(t) && Run(s) == Run(t))
            && (v == Finished ==> Run(s) == Run(FinishRect(t)))
            && (v == Blocked ==> Step(s).None? && Run(s) == s)
            && (v == Broken ==> Run(s).halted)
  {
    hide RectUnit, Run;
    var (t, v) := RectUnit(s);
    if v == Blocked {
      RunWaiting(s);
    } else {
      RunStep(s);
      if v == Broken {
        RunHalted(s.(halted := true));
      }
    }
  }

  lemma {:induction false} RawLeadsTo(s: Rfb)
    requires Inside(s, ENCODING_RAW)
    ensures var (l, io, v) := RawDecoder.Decode(s.lines, s.io, s.rect, s.depth8);
            LeadsTo(s, s.(lines := l, io := io), v)
    decreases if s.lines == 0 then 1 else 0, s.lines
  {
    hide Run, Step, RawDecoder.Unit;
    UnitLeadsTo(s);
    var (l, io, v) := RawDecoder.Unit(s.lines, s.io, s.rect, s.depth8);
    RawCountsDown(s.lines, s.io, s.rect, s.depth8);
    if v == More {
      RawLeadsTo(s.(lines := l, io := io));
    }
  }

  lemma RawCountsDown(lines: nat, io: IO, r: Rect, depth8: bool)
    ensures var (l, io1, v) := RawDecoder.Unit(lines, io, r, depth8);
            && (v == More ==> l > 0 && (lines == 0 || l < lines))
            && (v == Blocked ==> l == lines && io1 == io) && v != Broken && |io1.inp| <= |io.inp|
  {
    hide Put, RawDecoder.PixelsOf;
  }

  lemma {:induction false} RreLeadsTo(s: Rfb)
    requires Inside(s, ENCODING_RRE)
    ensures var (n, io, v) := RreDecoder.Decode(s.subrects, s.io, s.rect);
            LeadsTo(s, s.(subrects := n, io := io), v)
    decreases |s.io.inp|
  {
    hide Run, Step, RreDecoder.Unit;
    UnitLeadsTo(s);
    var (n, io, v) := RreDecoder.Unit(s.subrects, s.io, s.rect);
    RreCountsDown(s.subrects, s.io, s.rect);
    if v == More {
      RreLeadsTo(s.(subrects := n, io := io));
    }
  }

  lemma RreCountsDown(subrects: int, io: IO, r: Rect)
    ensures var (n, io1, v) := RreDecoder.Unit(subrects, io, r);
            (v == More ==> |io1.inp| < |io.inp|) && (v == Blocked ==> n == subrects && io1 == io) && v != Broken
            && |io1.inp| <= |io.inp|
  {
    hide Fill;
  }

  lemma {:induction false} HextileLeadsTo(s: Rfb)
    requires Inside(s, ENCODING_HEXTILE)
    ensures var (h, io, v) := HextileDecoder.Decode(s.hex, s.io, s.rect);
            LeadsTo(s, s.(hex := h, io := io), v)
    decreases if s.hex.tiles == 0 then 1 else 0, s.hex.tiles
  {
    hide Run, Step, HextileDecoder.Unit;
    UnitLeadsTo(s);
    var (h, io, v) := HextileDecoder.Unit(s.hex, s.io, s.rect);
    HextileCountsDown(s.hex, s.io, s.rect);
    if v == More {
      HextileLeadsTo(s.(hex := h, io := io));
    }
  }

  lemma HextileCountsDown(h: HextileDecoder.Hex, io: IO, r: Rect)
    ensures var (h1, io1, v) := HextileDecoder.Unit(h, io, r);
            (v == More ==> h1.tiles > 0 && (h.tiles == 0 || h1.tiles < h.tiles)) && (v == Blocked ==> h1 == h && io1 == io)
            && |io1.inp| <= |io.inp|
  {
    hide HextileDecoder.DrawTile, HextileDecoder.CurrentTile, HextileDecoder.Expected;
    var t := HextileDecoder.CurrentTile(h, r);
    if |io.inp| >= 1 && HextileDecoder.Expected(io.inp, t).Some? && HextileDecoder.Expected(io.inp, t).value <= |io.inp| {
      HextileDecoder.DrawTileKeepsCount(h, io.inp, io.fb, t);
    }
  }

  // ----- the client object -----

  class Client {
    const sock: Sock
    const display: Surface
    const raw: RawDecoder.Raw
    const copyRect: CopyRectDecoder.CopyRect
    const rre: RreDecoder.Rre
    const hextile: HextileClass.Hextile
    const depth8: bool

    var rects: nat
    var encoding: Option<int>
    var rect: Rect
    var failed: bool
    ghost var updates: nat

    ghost predicate Valid()
      reads this, hextile, hextile.tileBuffer
    {
      hextile.Valid()
    }

    ghost function State(): Rfb
      reads this, sock, display, raw, rre, hextile, hextile.tileBuffer
      requires Valid()
    {
      Rfb(IO(sock.q, display.fb), rects, encoding, rect, raw.lines, rre.subrects, hextile.State(), depth8, updates, failed)
    }

    constructor (fb: Image, depth8: bool)
      ensures Valid() && State() == Start(fb, depth8)
      ensures fresh(sock) && fresh(display) && fresh(raw) && fresh(rre) && fresh(hextile) && fresh(hextile.tileBuffer)
    {
      sock := new Sock([]);
      display := new Surface(fb);
      raw := new RawDecoder.Raw();
      copyRect := new CopyRectDecoder.CopyRect();
      rre := new RreDecoder.Rre();
      hextile := new HextileClass.Hextile();
      this.depth8 := depth8;
      rects, encoding, rect, failed, updates := 0, None, Rect(0, 0, 0, 0), false, 0;
    }

    /** _handleRect: true when the rectangle is finished; a decoder that throws fails the connection. */
    method HandleRect() returns (done: bool)
      requires Valid() && !failed && rects > 0 && encoding.Some?
      modifies this, sock, display, raw, rre, hextile, hextile.tileBuffer
      ensures Valid() && (done ==> !failed && rects > 0)
      ensures done ==> Run(old(State())) == Run(FinishRect(State()))
      ensures done ==> |sock.q| <= |old(sock.q)| && rects <= old(rects)
      ensures !done && !failed ==> Run(old(State())) == State()
      ensures failed ==> Run(old(State())).halted
    {
      hide Run, Step, Resized;
      ghost var s := State();
      UnitLeadsTo(s);
      if encoding.value == ENCODING_LAST_RECT {
        rects := 1;
        done := true;
      } else if encoding.value == ENCODING_DESKTOP_SIZE {
        display.fb := Resized(display.fb, rect.w, rect.h);
        done := true;
      } else {
        done := HandleDataRect();
      }
    }

    method HandleDataRect() returns (done: bool)
      requires Valid() && !failed && rects > 0 && encoding.Some?
      requires encoding.value != ENCODING_LAST_RECT && encoding.value != ENCODING_DESKTOP_SIZE
      modifies this, sock, display, raw, rre, hextile, hextile.tileBuffer
      ensures Valid() && (done ==> !failed && rects > 0)
      ensures done ==> Run(old(State())) == Run(FinishRect(State()))
      ensures done ==> |sock.q| <= |old(sock.q)| && rects <= old(rects)
      ensures !done && !failed ==> Run(old(State())) == State()
      ensures failed ==> Run(old(State())).halted
    {
      hide Run, Step, RawDecoder.Decode, RreDecoder.Decode, HextileDecoder.Decode, Draw;
      ghost var s := State();
      UnitLeadsTo(s);
      if encoding.value == ENCODING_RAW {
        RawLeadsTo(s);
        done := raw.DecodeRect(rect, sock, display, depth8);
      } else if encoding.value == ENCODING_COPYRECT {
        done := copyRect.DecodeRect(rect, sock, display);
      } else if encoding.value == ENCODING_RRE {
        RreLeadsTo(s);
        done := rre.DecodeRect(rect, sock, display);
      } else if encoding.value == ENCODING_HEXTILE {
        HextileLeadsTo(s);
        var thrown;
        done, thrown := hextile.DecodeRect(rect, sock, display);
        failed := thrown;
      } else {
        failed, done := true, false;
      }
    }

    /** _framebufferUpdate: true when the update is finished. */
    method FramebufferUpdate() returns (done: bool)
      requires Valid() && !failed && rects > 0
      modifies this, sock, display, raw, rre, hextile, hextile.tileBuffer
      ensures Valid() && (done ==> !failed && rects == 0 && |sock.q| <= |old(sock.q)|)
      ensures done ==> Run(old(State())) == Run(State())
      ensures !done && !failed ==> Run(old(State())) == State()
      ensures failed ==> Run(old(State())).halted
    {
      hide Run, Step;
      while rects > 0
        invariant Valid() && !failed && |sock.q| <= |old(sock.q)|
        invariant Run(State()) == Run(old(State()))
        decreases rects
      {
        ghost var s := State();
        if encoding.None? {
          HeaderLeads(s);
          if sock.Wait(12) {
            return false;
          }
          rect := Rect(U16(sock.q, 0), U16(sock.q, 2), U16(sock.q, 4), U16(sock.q, 6));
          encoding := Some(S32(sock.q, 8));
          sock.SkipBytes(12);
          assert HeaderStep(s) == Some(State());
        }
        done := HandleRect();
        if !done {
          return;
        }
        ghost var t := State();
        if rects == 1 {
          updates := updates + 1;
        }
        rects := rects - 1;
        encoding := None;
        assert State() == FinishRect(t);
      }
      done := true;
    }

    lemma HeaderLeads(s: Rfb)
      requires !s.halted && s.rects > 0 && s.encoding.None?
      ensures HeaderStep(s).None? ==> Run(s) == s
      ensures HeaderStep(s).Some? ==> Run(s) == Run(HeaderStep(s).value)
    {
      hide Run;
      assert Step(s) == HeaderStep(s);
      if HeaderStep(s).None? {
        RunWaiting(s);
      } else {
        RunStep(s);
      }
    }

    lemma MessageLeads(s: Rfb)
      requires !s.halted && s.rects == 0
      ensures MessageStep(s).None? ==> Run(s) == s
      ensures MessageStep(s).Some? ==> Run(s) == Run(MessageStep(s).value)
      ensures MessageStep(s).Some? && MessageStep(s).value.halted ==> Run(s).halted
    {
      hide Run;
      assert Step(s) == MessageStep(s);
      if MessageStep(s).None? {
        RunWaiting(s);
      } else {
        RunStep(s);
        if MessageStep(s).value.halted {
          RunHalted(MessageStep(s).value);
        }
      }
    }

    /** _normalMsg: one message, or the rest of an unfinished update. A header that is not all there is put
        back. */
    method NormalMsg() returns (done: bool)
      requires Valid() && !failed && (rects == 0 ==> sock.q != [])
      modifies this, sock, display, raw, rre, hextile, hextile.tileBuffer
      ensures Valid() && (done ==> !failed && rects == 0)
      ensures done ==> |sock.q| < |old(sock.q)| || (|sock.q| == |old(sock.q)| && old(rects) > 0)
      ensures done ==> Run(old(State())) == Run(State())
      ensures !done && !failed ==> Run(old(State())) == State()
      ensures failed ==> Run(old(State())).halted
    {
      hide Run, Step;
      ghost var s := State();
      if rects > 0 {
        done := FramebufferUpdate();
        return;
      }
      MessageLeads(s);
      var msgType := sock.q[0];
      sock.SkipBytes(1);
      if msgType == MSG_FRAMEBUFFER_UPDATE {
        if sock.Wait(3) {
          // rQwait puts the message type back.
          sock.q := [msgType as byte] + sock.q;
          assert sock.q == old(sock.q);
          return false;
        }
        sock.SkipBytes(1);
        rects := U16(sock.q, 0);
        sock.SkipBytes(2);
        assert sock.q == old(sock.q)[4..];
        if rects == 0 {
          updates := updates + 1;
        }
        assert MessageStep(s) == Some(State());
        if rects == 0 {
          return true;
        }
        done := FramebufferUpdate();
      } else if msgType == MSG_BELL {
        assert MessageStep(s) == Some(State());
        done := true;
      } else {
        failed := true;
        done := false;
      }
    }

    /** _handleMessage, called whenever bytes have arrived: the client ends where the machine waits. */
    method HandleMessage()
      requires Valid() && !failed && sock.q != []
      modifies this, sock, display, raw, rre, hextile, hextile.tileBuffer
      ensures Valid()
      ensures !failed ==> State() == Run(old(State()))
      ensures failed <==> Run(old(State())).halted
    {
      hide Run, Step;
      while true
        invariant Valid() && !failed && (rects == 0 ==> sock.q != [])
        invariant Run(State()) == Run(old(State()))
        decreases |sock.q|, rects
      {
        var done := NormalMsg();
        if !done {
          break;
        }
        if sock.q == [] {
          EmptyWaits(State());
          break;
        }
      }
    }

    lemma EmptyWaits(s: Rfb)
      requires !s.halted && s.rects == 0 && s.io.inp == []
      ensures Run(s) == s
    {
      RunWaiting(s);
    }

    /** Bytes arrive in the queue and are handled. */
    method OnData(data: seq<byte>)
      requires Valid() && !failed && data != []
      modifies this, sock, display, raw, rre, hextile, hextile.tileBuffer
      ensures Valid()
      ensures !failed ==> State() == Run(Arrive(old(State()), data))
      ensures failed <==> Run(Arrive(old(State()), data)).halted
    {
      hide Run;
      sock.q := sock.q + data;
      assert State() == Arrive(old(State()), data);
      HandleMessage();
    }
  }
}
