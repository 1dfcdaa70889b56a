/** The framebuffer client in front of the display: the calls its steps make, what the backbuffer becomes,
    and what is visible after the flip that closes an update. */
module RfbDisplay {
  import opened Arith
  import opened Bytes
  import opened Wrappers
  import opened Canvas
  import opened DecoderIO
  import opened RfbMachine
  import opened RfbMeaning
  import opened HextileMeaning
  import HextileDecoder
  import RawDecoder
  import RreDecoder
  import CopyRectDecoder
  import D = Display
  import P = DisplayProofs
  import R = DisplayRuns
  import H = DisplayHistory
  import F = DisplayFlips

  // ----- the calls of a step -----

  function RawCalls(lines: nat, io: IO, r: Rect, depth8: bool): seq<R.Call> {
    if r.w == 0 || r.h == 0 || lines == 0 || |io.inp| < r.w * RawDecoder.PixelSize(depth8) then []
    else [R.CallBlit(r.x, r.y + r.h - lines, r.w, 1, RawDecoder.PixelsOf(io.inp, r.w, depth8), 0)]
  }

  function CopyRectCalls(io: IO, r: Rect): seq<R.Call> {
    if |io.inp| < 4 || r.w == 0 || r.h == 0 then []
    else [R.CallCopy(U16(io.inp, 0), U16(io.inp, 2), r.x, r.y, r.w, r.h)]
  }

  function RreCalls(subrects: int, io: IO, r: Rect): seq<R.Call> {
    if subrects == 0 then
      if |io.inp| < 8 then [] else [R.CallFill(r.x, r.y, r.w, r.h, ColorAt(io.inp, 4))]
    else if subrects < 0 || |io.inp| < 12 then []
    else [R.CallFill(r.x + U16(io.inp, 4), r.y + U16(io.inp, 6), U16(io.inp, 8), U16(io.inp, 10), ColorAt(io.inp, 0))]
  }

  function TileCalls(h: HextileDecoder.Hex, inp: seq<byte>, t: HextileDecoder.Tile): seq<R.Call>
    requires |inp| >= 1 && HextileDecoder.Expected(inp, t).Some? && HextileDecoder.Expected(inp, t).value <= |inp|
  {
    if inp[0] == 0 then
      if HextileDecoder.Bit(h.lastSub, 0) || h.background.None? then []
      else [R.CallFill(t.x, t.y, t.w, t.h, h.background.value)]
    else if HextileDecoder.Bit(inp[0], 0) then [R.CallBlit(t.x, t.y, t.w, t.h, Pixels32(inp[1..], t.w * t.h), 0)]
    else
      var painted := HextileDecoder.PaintTile(h, inp, t);
      if painted.None? then []
      else [R.CallBlit(t.x, t.y, t.w, t.h, painted.value.buf[..HextileDecoder.Side256(t.w * t.h)], 0)]
  }

  function HextileCalls(h: HextileDecoder.Hex, io: IO, r: Rect): seq<R.Call> {
    if h.tiles == 0 || |io.inp| < 1 || io.inp[0] > 30 then []
    else
      var t := HextileDecoder.CurrentTile(h, r);
      var bytes := HextileDecoder.Expected(io.inp, t);
      if bytes.None? || |io.inp| < bytes.value then [] else TileCalls(h, io.inp, t)
  }

  function RectCalls(s: Rfb): seq<R.Call>
    requires s.encoding.Some?
  {
    var e := s.encoding.value;
    if e == ENCODING_RAW then RawCalls(s.lines, s.io, s.rect, s.depth8)
    else if e == ENCODING_COPYRECT then CopyRectCalls(s.io, s.rect)
    else if e == ENCODING_RRE then RreCalls(s.subrects, s.io, s.rect)
    else if e == ENCODING_HEXTILE then HextileCalls(s.hex, s.io, s.rect)
    else if e == ENCODING_DESKTOP_SIZE then [R.CallResize(s.rect.w, s.rect.h)]
    else []
  }

  /** What one step asks of the display. The step that ends an update flips. */
  function StepCalls(s: Rfb): seq<R.Call> {
    if s.halted then []
    else if s.rects == 0 then
      if |s.io.inp| >= 4 && s.io.inp[0] == MSG_FRAMEBUFFER_UPDATE && U16(s.io.inp, 2) == 0 then [R.CallFlip] else []
    else if s.encoding.None? then []
    else
      var (t, v) := RectUnit(s);
      RectCalls(s) + if v == Finished && t.rects <= 1 then [R.CallFlip] else []
  }

  function RunCalls(s: Rfb): seq<R.Call>
    decreases if s.halted then 0 else 1, |s.io.inp|, s.rects, Pending(s)
  {
    if Step(s).None? then []
    else
      StepProgress(s);
      StepCalls(s) + RunCalls(Step(s).value)
  }

  function ArrivalCalls(s: Rfb, chunks: seq<seq<byte>>): seq<R.Call>
    decreases |chunks|
  {
    if chunks == [] then []
    else RunCalls(Arrive(s, chunks[0])) + ArrivalCalls(Run(Arrive(s, chunks[0])), chunks[1..])
  }

  // ----- a step paints what it asks for -----

  /** The picture that calls make of an image. */
  function After(img: Image, calls: seq<R.Call>): Image {
    H.Painted(img, H.AllAsks(calls))
  }

  lemma {:induction false} AfterNone(img: Image)
    ensures After(img, []) == img
  {
  }

  lemma {:induction false} AsksAppend(a: seq<R.Call>, b: seq<R.Call>)
    ensures H.AllAsks(a + b) == H.AllAsks(a) + H.AllAsks(b)
  {
    hide H.Asks;
    if a == [] {
      assert a + b == b;
    } else {
      assert (a + b)[0] == a[0] && (a + b)[1..] == a[1..] + b;
      AsksAppend(a[1..], b);
    }
  }

  lemma {:induction false} AfterAppend(img: Image, a: seq<R.Call>, b: seq<R.Call>)
    ensures After(img, a + b) == After(After(img, a), b)
  {
    hide H.Painted, H.AllAsks;
    AsksAppend(a, b);
    H.PaintedAppend(img, H.AllAsks(a), H.AllAsks(b));
  }

  lemma {:induction false} AfterOne(img: Image, call: R.Call)
    ensures After(img, [call]) == H.Painted(img, H.Asks(call))
  {
    hide H.Painted, H.Asks;
    assert [call][1..] == [];
    assert H.AllAsks([call]) == H.Asks(call) + H.AllAsks([]);
    assert H.Asks(call) + [] == H.Asks(call);
  }

  lemma {:induction false} AfterBlit(img: Image, x: int, y: int, w: nat, h: nat, pixels: seq<Pixel>)
    requires |pixels| == w * h
    ensures After(img, [R.CallBlit(x, y, w, h, pixels, 0)]) == Put(img, x, y, w, h, pixels)
  {
    hide Put;
    AfterOne(img, R.CallBlit(x, y, w, h, pixels, 0));
    assert pixels[0..0 + w * h] == pixels;
    H.OnePaint(img, D.BlitAct(x, y, w, h, pixels));
  }

  lemma {:induction false} AfterFill(img: Image, x: int, y: int, w: nat, h: nat, c: Color)
    ensures After(img, [R.CallFill(x, y, w, h, c)]) == Fill(img, x, y, w, h, c)
  {
    hide Fill;
    AfterOne(img, R.CallFill(x, y, w, h, c));
    H.OnePaint(img, D.FillAct(x, y, w, h, c));
  }

  lemma {:induction false} AfterCopy(img: Image, oldX: int, oldY: int, x: int, y: int, w: nat, h: nat)
    ensures After(img, [R.CallCopy(oldX, oldY, x, y, w, h)]) == Draw(img, img, oldX, oldY, x, y, w, h)
  {
    hide Draw;
    AfterOne(img, R.CallCopy(oldX, oldY, x, y, w, h));
    H.OnePaint(img, D.CopyAct(oldX, oldY, x, y, w, h));
  }

  lemma {:induction false} AfterResize(img: Image, w: nat, h: nat)
    ensures After(img, [R.CallResize(w, h)]) == Resized(img, w, h)
  {
    hide Resized;
    AfterOne(img, R.CallResize(w, h));
    var op := H.Size(w, h);
    assert [op][0] == op && [op][1..] == [];
    assert H.Painted(img, [op]) == H.Painted(Resized(img, w, h), []);
  }

  lemma {:induction false} AfterFlip(img: Image)
    ensures After(img, [R.CallFlip]) == img
  {
    AfterOne(img, R.CallFlip);
  }

  lemma {:induction false} RawPaints(lines: nat, io: IO, r: Rect, depth8: bool)
    ensures RawDecoder.Unit(lines, io, r, depth8).1.fb == After(io.fb, RawCalls(lines, io, r, depth8))
  {
    hide Put, After, RawDecoder.PixelsOf;
    AfterNone(io.fb);
    if r.w > 0 && r.h > 0 && lines > 0 && |io.inp| >= r.w * RawDecoder.PixelSize(depth8) {
      AfterBlit(io.fb, r.x, r.y + r.h - lines, r.w, 1, RawDecoder.PixelsOf(io.inp, r.w, depth8));
    }
  }

  lemma {:induction false} CopyRectPaints(io: IO, r: Rect)
    ensures CopyRectDecoder.Unit(io, r).0.fb == After(io.fb, CopyRectCalls(io, r))
  {
    hide Draw, After;
    AfterNone(io.fb);
    if |io.inp| >= 4 {
      AfterCopy(io.fb, U16(io.inp, 0), U16(io.inp, 2), r.x, r.y, r.w, r.h);
    }
  }

  lemma {:induction false} RrePaints(subrects: int, io: IO, r: Rect)
    ensures RreDecoder.Unit(subrects, io, r).1.fb == After(io.fb, RreCalls(subrects, io, r))
  {
    hide Fill, After;
    AfterNone(io.fb);
    if |io.inp| >= 8 {
      AfterFill(io.fb, r.x, r.y, r.w, r.h, ColorAt(io.inp, 4));
    }
    if |io.inp| >= 12 {
      AfterFill(io.fb, r.x + U16(io.inp, 4), r.y + U16(io.inp, 6), U16(io.inp, 8), U16(io.inp, 10), ColorAt(io.inp, 0));
    }
  }

  lemma {:induction false} SmallArea(w: nat, h: nat)
    requires w <= 16 && h <= 16
    ensures w * h <= 256
  {
    MulMonotone(w, 16, h);
  }

  lemma {:induction false} TilePaints(h: HextileDecoder.Hex, inp: seq<byte>, fb: Image, t: HextileDecoder.Tile)
    requires |inp| >= 1 && HextileDecoder.Expected(inp, t).Some? && HextileDecoder.Expected(inp, t).value <= |inp|
    requires t.w <= 16 && t.h <= 16
    ensures var drawn := HextileDecoder.DrawTile(h, inp, fb, t);
            After(fb, TileCalls(h, inp, t)) == if drawn.Some? then drawn.value.1 else fb
  {
    hide Fill, Put, After, HextileDecoder.PaintTile;
    AfterNone(fb);
    SmallArea(t.w, t.h);
    if inp[0] == 0 {
      if h.background.Some? {
        AfterFill(fb, t.x, t.y, t.w, t.h, h.background.value);
      }
    } else if HextileDecoder.Bit(inp[0], 0) {
      AfterBlit(fb, t.x, t.y, t.w, t.h, Pixels32(inp[1..], t.w * t.h));
    } else {
      var painted := HextileDecoder.PaintTile(h, inp, t);
      if painted.Some? {
        AfterBlit(fb, t.x, t.y, t.w, t.h, painted.value.buf[..HextileDecoder.Side256(t.w * t.h)]);
      }
    }
  }

  lemma {:induction false} HextilePaints(h: HextileDecoder.Hex, io: IO, r: Rect)
    ensures HextileDecoder.Unit(h, io, r).1.fb == After(io.fb, HextileCalls(h, io, r))
  {
    hide After, HextileDecoder.DrawTile, HextileDecoder.Expected, TileCalls;
    AfterNone(io.fb);
    if h.tiles > 0 && |io.inp| >= 1 && io.inp[0] <= 30 {
      var t := HextileDecoder.CurrentTile(h, r);
      var bytes := HextileDecoder.Expected(io.inp, t);
      if bytes.Some? && bytes.value <= |io.inp| {
        TilePaints(h, io.inp, io.fb, t);
      }
    }
  }

  lemma {:induction false} BrokenDrawsNothing(s: Rfb)
    requires s.encoding.Some? && RectUnit(s).1 == Broken
    ensures RectUnit(s).0.io == s.io
  {
    hide HextileDecoder.DrawTile, HextileDecoder.Expected, HextileDecoder.CurrentTile, Put, Fill, Draw, Resized;
  }

  /** The drawing a step asks the display for is the drawing it does. */
  lemma {:induction false} StepPaints(s: Rfb)
    requires Step(s).Some?
    ensures Step(s).value.io.fb == After(s.io.fb, StepCalls(s))
  {
    hide After, RawDecoder.Unit, RreDecoder.Unit, HextileDecoder.Unit, CopyRectDecoder.Unit, Resized;
    hide RawCalls, CopyRectCalls, RreCalls, HextileCalls;
    AfterNone(s.io.fb);
    AfterFlip(s.io.fb);
    if s.rects > 0 && s.encoding.Some? {
      var (t, v) := RectUnit(s);
      RawPaints(s.lines, s.io, s.rect, s.depth8);
      CopyRectPaints(s.io, s.rect);
      RrePaints(s.subrects, s.io, s.rect);
      HextilePaints(s.hex, s.io, s.rect);
      AfterResize(s.io.fb, s.rect.w, s.rect.h);
      assert t.io.fb == After(s.io.fb, RectCalls(s));
      var flip := if v == Finished && t.rects <= 1 then [R.CallFlip] else [];
      AfterAppend(s.io.fb, RectCalls(s), flip);
      if v == Broken {
        BrokenDrawsNothing(s);
      }
      AfterNone(t.io.fb);
      AfterFlip(t.io.fb);
    }
  }

  lemma {:induction false} RunPaints(s: Rfb)
    ensures Run(s).io.fb == After(s.io.fb, RunCalls(s))
    decreases if s.halted then 0 else 1, |s.io.inp|, s.rects, Pending(s)
  {
    hide Step, StepCalls, After, Pending;
    if Step(s).None? {
      AfterNone(s.io.fb);
    } else {
      StepProgress(s);
      StepPaints(s);
      RunPaints(Step(s).value);
      AfterAppend(s.io.fb, StepCalls(s), RunCalls(Step(s).value));
    }
  }

  lemma {:induction false} ArrivalsPaint(s: Rfb, chunks: seq<seq<byte>>)
    ensures RunArrivals(s, chunks).io.fb == After(s.io.fb, ArrivalCalls(s, chunks))
    decreases |chunks|
  {
    hide Run, RunCalls, After;
    if chunks == [] {
      AfterNone(s.io.fb);
    } else {
      var s1 := Run(Arrive(s, chunks[0]));
      RunPaints(Arrive(s, chunks[0]));
      ArrivalsPaint(s1, chunks[1..]);
      AfterAppend(s.io.fb, RunCalls(Arrive(s, chunks[0])), ArrivalCalls(s1, chunks[1..]));
    }
  }

  // ----- nothing waits -----

  predicate Images(calls: seq<R.Call>) {
    exists call <- calls :: call.CallPicture?
  }

  lemma {:induction false} StepDrawsNoImage(s: Rfb)
    ensures !Images(StepCalls(s))
  {
    hide RectUnit, HextileDecoder.Expected, HextileDecoder.CurrentTile, HextileDecoder.PaintTile, HextileDecoder.Bit;
  }

  lemma {:induction false} RunDrawsNoImage(s: Rfb)
    ensures !Images(RunCalls(s))
    decreases if s.halted then 0 else 1, |s.io.inp|, s.rects, Pending(s)
  {
    hide Step, StepCalls, Pending;
    if Step(s).Some? {
      StepProgress(s);
      StepDrawsNoImage(s);
      RunDrawsNoImage(Step(s).value);
    }
  }

  lemma {:induction false} ArrivalsDrawNoImage(s: Rfb, chunks: seq<seq<byte>>)
    ensures !Images(ArrivalCalls(s, chunks))
    decreases |chunks|
  {
    hide Run, RunCalls;
    if chunks != [] {
      RunDrawsNoImage(Arrive(s, chunks[0]));
      ArrivalsDrawNoImage(Run(Arrive(s, chunks[0])), chunks[1..]);
    }
  }

  /** The client in front of a display on which nothing waits: for every state of the update loop and every
      way its bytes arrive, nothing ever waits, and the backbuffer is the framebuffer the decoders draw. */
  lemma {:induction false} BackbufferIsFramebuffer(d: D.Screen, s: Rfb, chunks: seq<seq<byte>>)
    requires R.RunInv(d) && d.renderQ == [] && d.back == s.io.fb
    ensures var e := R.Run(d, ArrivalCalls(s, chunks));
            R.RunInv(e) && e.renderQ == [] && e.back == RunArrivals(s, chunks).io.fb
  {
    hide R.RunInv, R.Run, RunArrivals, ArrivalCalls, After;
    var calls := ArrivalCalls(s, chunks);
    ArrivalsDrawNoImage(s, chunks);
    ArrivalsPaint(s, chunks);
    R.RunKeeps(d, calls);
    H.NoImagesAsImmediate(d, calls);
    assert After(d.back, calls) == H.Painted(d.back, H.AllAsks(calls)) by { AfterMeans(d.back, calls); }
  }

  lemma {:induction false} AfterMeans(img: Image, calls: seq<R.Call>)
    ensures After(img, calls) == H.Painted(img, H.AllAsks(calls))
  {
  }

  // ----- an update ends with a flip -----

  predicate EndsWithFlip(calls: seq<R.Call>) {
    calls != [] && calls[|calls| - 1] == R.CallFlip
  }

  /** Between updates the last thing asked of the display was a flip. */
  lemma {:induction false} StepEndsWithFlip(s: Rfb)
    requires Step(s).Some? && Step(s).value.rects == 0
    ensures EndsWithFlip(StepCalls(s)) || (s.rects == 0 && StepCalls(s) == []) || Step(s).value.halted
  {
    hide RectCalls, RectUnit;
    if s.rects > 0 && s.encoding.Some? {
      UnitKeepsRects(s);
    }
  }

  lemma {:induction false} UnitKeepsRects(s: Rfb)
    requires s.encoding.Some? && s.rects > 0
    ensures var (t, v) := RectUnit(s); t.rects == s.rects || (t.rects == 1 && v == Finished)
  {
    hide RawDecoder.Unit, RreDecoder.Unit, HextileDecoder.Unit, CopyRectDecoder.Unit, Resized;
  }

  lemma {:induction false} RunEndsWithFlip(s: Rfb)
    requires Run(s).rects == 0 && !Run(s).halted
    ensures EndsWithFlip(RunCalls(s)) || (s.rects == 0 && RunCalls(s) == [])
    decreases if s.halted then 0 else 1, |s.io.inp|, s.rects, Pending(s)
  {
    hide Step, StepCalls, Pending;
    if Step(s).Some? {
      StepProgress(s);
      var t := Step(s).value;
      HaltedStays(t);
      RunEndsWithFlip(t);
      if RunCalls(t) == [] {
        StepEndsWithFlip(s);
        assert StepCalls(s) + [] == StepCalls(s);
      } else {
        assert RunCalls(s)[|RunCalls(s)| - 1] == RunCalls(t)[|RunCalls(t)| - 1];
      }
    }
  }

  lemma {:induction false} HaltedStays(s: Rfb)
    ensures s.halted ==> Run(s) == s
  {
  }

  lemma {:induction false} ArrivalsEndWithFlip(s: Rfb, chunks: seq<seq<byte>>)
    requires RunArrivals(s, chunks).rects == 0 && !RunArrivals(s, chunks).halted
    ensures EndsWithFlip(ArrivalCalls(s, chunks)) || (s.rects == 0 && ArrivalCalls(s, chunks) == [])
    decreases |chunks|
  {
    hide Run, RunCalls;
    if chunks != [] {
      var s1 := Arrive(s, chunks[0]);
      var t := Run(s1);
      if t.halted {
        HaltedForGood(t, chunks[1..]);
      }
      ArrivalsEndWithFlip(t, chunks[1..]);
      var a, b := RunCalls(s1), ArrivalCalls(t, chunks[1..]);
      if b == [] {
        RunEndsWithFlip(s1);
        assert a + b == a;
      } else {
        assert (a + b)[|a + b| - 1] == b[|b| - 1];
      }
    }
  }

  lemma {:induction false} HaltedForGood(s: Rfb, chunks: seq<seq<byte>>)
    requires s.halted
    ensures RunArrivals(s, chunks).halted
    decreases |chunks|
  {
    hide Run;
    if chunks != [] {
      var s1 := Arrive(s, chunks[0]);
      HaltedStays(s1);
      HaltedForGood(Run(s1), chunks[1..]);
    }
  }

  /** An update cannot end unasked. */
  lemma {:induction false} StepCountsWithFlip(s: Rfb)
    requires Step(s).Some? && StepCalls(s) == []
    ensures Step(s).value.updates == s.updates
  {
    hide RectCalls, RectUnit;
    if s.rects > 0 && s.encoding.Some? {
      UnitKeepsUpdates(s);
    }
  }

  lemma {:induction false} UnitKeepsUpdates(s: Rfb)
    requires s.encoding.Some?
    ensures RectUnit(s).0.updates == s.updates
  {
    hide RawDecoder.Unit, RreDecoder.Unit, HextileDecoder.Unit, CopyRectDecoder.Unit, Resized;
  }

  lemma {:induction false} RunCountsWithFlips(s: Rfb)
    requires RunCalls(s) == []
    ensures Run(s).updates == s.updates
    decreases if s.halted then 0 else 1, |s.io.inp|, s.rects, Pending(s)
  {
    hide Step, StepCalls, Pending;
    if Step(s).Some? {
      StepProgress(s);
      StepCountsWithFlip(s);
      RunCountsWithFlips(Step(s).value);
    }
  }

  lemma {:induction false} ArrivalsCountWithFlips(s: Rfb, chunks: seq<seq<byte>>)
    requires ArrivalCalls(s, chunks) == []
    ensures RunArrivals(s, chunks).updates == s.updates
    decreases |chunks|
  {
    hide Run, RunCalls;
    if chunks != [] {
      RunCountsWithFlips(Arrive(s, chunks[0]));
      ArrivalsCountWithFlips(Run(Arrive(s, chunks[0])), chunks[1..]);
    }
  }

  /** A flip that is carried out at once shows the viewport and leaves no damage. */
  lemma {:induction false} ClosingFlip(d: D.Screen, calls: seq<R.Call>)
    requires R.RunInv(d) && d.renderQ == [] && !Images(calls) && EndsWithFlip(calls)
    ensures var e := R.Run(d, calls);
            e.damage == D.NO_DAMAGE && forall p: Point :: P.InViewport(e, p) ==> P.Shown(e, p)
  {
    var n := |calls| - 1;
    var before, last := calls[..n], calls[n..];
    assert calls == before + last && last == [R.CallFlip];
    assert !Images(before);
    hide R.RunInv, R.Run, D.Submit, P.Shown;
    R.RunAppend(d, before, last);
    R.RunKeeps(d, before);
    H.RunStaysEmpty(d, before);
    var f := R.Run(d, before);
    LastFlip(f);
    forall p: Point | P.InViewport(R.Run(f, last), p)
      ensures P.Shown(R.Run(f, last), p)
    {
      FlipShows(f, p);
    }
  }

  lemma {:induction false} LastFlip(d: D.Screen)
    requires d.renderQ == []
    ensures R.Run(d, [R.CallFlip]) == D.Submit(d, D.FlipAct)
    ensures D.Submit(d, D.FlipAct).damage == D.NO_DAMAGE && D.Submit(d, D.FlipAct).viewport == d.viewport
  {
    hide D.Refreshed;
    assert [R.CallFlip][1..] == [];
    assert R.Run(d, [R.CallFlip]) == R.Run(R.Apply(d, R.CallFlip), []);
  }

  lemma {:induction false} FlipShows(d: D.Screen, p: Point)
    requires R.RunInv(d) && d.renderQ == [] && P.InViewport(R.Run(d, [R.CallFlip]), p)
    ensures P.Shown(R.Run(d, [R.CallFlip]), p)
  {
    hide P.Agrees, HasSize;
    LastFlip(d);
    F.FlipAtOnce(d, p);
  }

  /** From the server to the screen: for every well-formed stream of messages with an update in it and every way the
      network cuts its bytes up, nothing is left waiting, the backbuffer is what drawing the updates in order
      gives, no damage is left, and every painted pixel of it inside the viewport is visible. */
  lemma {:induction false} UpdatesAreShown(d: D.Screen, depth8: bool, us: seq<Message>, cut: seq<seq<byte>>)
    requires R.RunInv(d) && d.renderQ == [] && CountUpdates(us) > 0
    requires UpdatesOk(us, d.back, Carry(None, None, false)) && UpdatesSuit(us, depth8)
    requires Concat(cut) == UpdatesBytes(us, d.back, Carry(None, None, false))
    ensures var e := R.Run(d, ArrivalCalls(Start(d.back, depth8), cut));
            && e.renderQ == [] && e.back == DrawUpdates(d.back, Carry(None, None, false), us).0
            && e.damage == D.NO_DAMAGE && forall p: Point :: P.InViewport(e, p) ==> P.Shown(e, p)
  {
    var s := Start(d.back, depth8);
    StartIsIdle(d.back, depth8);
    ClientDrawsTheUpdates(d.back, depth8, us, cut);
    var t := RunArrivals(s, cut);
    assert t.rects == 0 && !t.halted by { IdleRests(t, DrawUpdates(d.back, Carry(None, None, false), us).1); }
    hide R.RunInv, R.Run, RunArrivals, ArrivalCalls, DrawUpdates, CountUpdates, UpdatesOk, UpdatesSuit, UpdatesBytes, Start, P.Shown, Idle;
    BackbufferIsFramebuffer(d, s, cut);
    ArrivalsEndWithFlip(s, cut);
    if ArrivalCalls(s, cut) == [] {
      ArrivalsCountWithFlips(s, cut);
    }
    ArrivalsDrawNoImage(s, cut);
    ClosingFlip(d, ArrivalCalls(s, cut));
  }

  lemma {:induction false} IdleRests(s: Rfb, carry: Carry)
    requires Idle(s, carry)
    ensures s.rects == 0 && !s.halted
  {
  }
}
