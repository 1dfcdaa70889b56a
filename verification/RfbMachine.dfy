/** The framebuffer-update loop and its decoders as one machine of smallest steps: a message header, a
    rectangle header, one line, one subrectangle, one tile. */
module RfbMachine {
  import opened Bytes
  import opened Wrappers
  import opened Canvas
  import opened DecoderIO
  import RawDecoder
  import CopyRectDecoder
  import RreDecoder
  import HextileDecoder

  const ENCODING_RAW := 0
  const ENCODING_COPYRECT := 1
  const ENCODING_RRE := 2
  const ENCODING_HEXTILE := 5
  const ENCODING_DESKTOP_SIZE := -223
  const ENCODING_LAST_RECT := -224

  const MSG_FRAMEBUFFER_UPDATE := 0
  const MSG_BELL := 2

  /** `rects`, `encoding` and `rect` are the fields of _FBU; `lines`, `subrects` and `hex` belong to the
      decoders; `updates` counts finished updates. A machine that halts has failed the connection or met a
      message or encoding outside this model. */
  datatype Rfb = Rfb(io: IO, rects: nat, encoding: Option<int>, rect: Rect, lines: nat, subrects: int,
                     hex: HextileDecoder.Hex, depth8: bool, updates: nat, halted: bool)

  function Start(fb: Image, depth8: bool): Rfb {
    Rfb(IO([], fb), 0, None, Rect(0, 0, 0, 0), 0, 0, HextileDecoder.Fresh(), depth8, 0, false)
  }

  function Arrive(s: Rfb, more: seq<byte>): Rfb {
    s.(io := Extend(s.io, more))
  }

  // ----- steps -----

  function RectUnit(s: Rfb): (Rfb, Verdict)
    requires s.encoding.Some?
  {
    var e := s.encoding.value;
    if e == ENCODING_RAW then
      var (l, io, v) := RawDecoder.Unit(s.lines, s.io, s.rect, s.depth8);
      (s.(lines := l, io := io), v)
    else if e == ENCODING_COPYRECT then
      var (io, v) := CopyRectDecoder.Unit(s.io, s.rect);
      (s.(io := io), v)
    else if e == ENCODING_RRE then
      var (n, io, v) := RreDecoder.Unit(s.subrects, s.io, s.rect);
      (s.(subrects := n, io := io), v)
    else if e == ENCODING_HEXTILE then
      var (h, io, v) := HextileDecoder.Unit(s.hex, s.io, s.rect);
      (s.(hex := h, io := io), v)
    else if e == ENCODING_LAST_RECT then (s.(rects := 1), Finished)
    else if e == ENCODING_DESKTOP_SIZE then
      (s.(io := s.io.(fb := Resized(s.io.fb, s.rect.w, s.rect.h))), Finished)
    else (s, Broken)
  }

  /** The end of a rectangle; after the last one the update is finished. */
  function FinishRect(s: Rfb): Rfb {
    s.(rects := if s.rects > 0 then s.rects - 1 else 0, encoding := None,
       updates := if s.rects <= 1 then s.updates + 1 else s.updates)
  }

  function MessageStep(s: Rfb): Option<Rfb>
    requires s.rects == 0
  {
    var inp := s.io.inp;
    if |inp| < 1 then None
    else if inp[0] == MSG_FRAMEBUFFER_UPDATE then
      if |inp| < 4 then None
      else
        var n := U16(inp, 2);
        Some(s.(io := Skip(s.io, 4), rects := n, updates := if n == 0 then s.updates + 1 else s.updates))
    else if inp[0] == MSG_BELL then Some(s.(io := Skip(s.io, 1)))
    else Some(s.(halted := true))
  }

  function HeaderStep(s: Rfb): Option<Rfb> {
    var inp := s.io.inp;
    if |inp| < 12 then None
    else Some(s.(io := Skip(s.io, 12), rect := Rect(U16(inp, 0), U16(inp, 2), U16(inp, 4), U16(inp, 6)),
                 encoding := Some(S32(inp, 8))))
  }

  function RectStep(s: Rfb): Option<Rfb>
    requires s.encoding.Some?
  {
    var (t, v) := RectUnit(s);
    match v
    case Blocked => None
    case More => Some(t)
    case Finished => Some(FinishRect(t))
    case Broken => Some(s.(halted := true))
  }

  /** One smallest step, or None when the machine waits for bytes. */
  function Step(s: Rfb): Option<Rfb> {
    if s.halted then None
    else if s.rects == 0 then MessageStep(s)
    else if s.encoding.None? then HeaderStep(s)
    else RectStep(s)
  }

  // ----- runs -----

  function Pending(s: Rfb): nat {
    (if s.encoding.Some? then 1 else 0) + (if s.lines == 0 then 1 else 0) + (if s.hex.tiles == 0 then 1 else 0)
  }

  /** Every step consumes bytes, finishes a rectangle, starts one, or halts. */
  lemma {:induction false} StepProgress(s: Rfb)
    requires Step(s).Some?
    ensures var t := Step(s).value;
            || (t.halted && !s.halted)
            || (t.halted == s.halted && |t.io.inp| < |s.io.inp|)
            || (t.halted == s.halted && t.io.inp == s.io.inp && t.rects < s.rects)
            || (t.halted == s.halted && t.io.inp == s.io.inp && t.rects == s.rects && Pending(t) < Pending(s))
  {
    hide Put, Fill, Draw, Resized, HextileDecoder.DrawTile, HextileDecoder.CurrentTile, RawDecoder.PixelsOf;
    if s.rects > 0 && s.encoding.Some? {
      var e := s.encoding.value;
      if e == ENCODING_HEXTILE {
        HextileConsumes(s.hex, s.io, s.rect);
      } else if e == ENCODING_RAW {
        RawConsumes(s.lines, s.io, s.rect, s.depth8);
      }
    }
  }

  lemma {:induction false} RawConsumes(lines: nat, io: IO, r: Rect, depth8: bool)
    ensures var (l, io1, v) := RawDecoder.Unit(lines, io, r, depth8);
            v == More ==> |io1.inp| < |io.inp| || (lines == 0 && l > 0 && io1.inp == io.inp)
    ensures var (l, io1, v) := RawDecoder.Unit(lines, io, r, depth8);
            v == Finished ==> |io1.inp| < |io.inp| || io1.inp == io.inp
  {
    hide Put, RawDecoder.PixelsOf;
    if r.w > 0 {
      assert r.w * RawDecoder.PixelSize(depth8) > 0;
    }
  }

  lemma {:induction false} HextileConsumes(h: HextileDecoder.Hex, io: IO, r: Rect)
    ensures var (h1, io1, v) := HextileDecoder.Unit(h, io, r);
            v == More ==> |io1.inp| < |io.inp| || (h.tiles == 0 && h1.tiles > 0 && io1.inp == io.inp)
    ensures var (h1, io1, v) := HextileDecoder.Unit(h, io, r);
            v == Finished ==> |io1.inp| < |io.inp| || io1.inp == io.inp
  {
    hide HextileDecoder.DrawTile, HextileDecoder.CurrentTile, HextileDecoder.Expected, HextileDecoder.Ceil16;
    if h.tiles > 0 && |io.inp| >= 1 {
      TileTakesBytes(io.inp, HextileDecoder.CurrentTile(h, r));
    }
  }

  lemma {:induction false} TileTakesBytes(inp: seq<byte>, t: HextileDecoder.Tile)
    requires |inp| >= 1
    ensures HextileDecoder.Expected(inp, t).Some? ==> HextileDecoder.Expected(inp, t).value > 0
  {
    hide HextileDecoder.Bit;
  }

  /** Steps until the machine waits for bytes or has halted. */
  function Run(s: Rfb): (e: Rfb)
    ensures Step(e).None?
    decreases if s.halted then 0 else 1, |s.io.inp|, s.rects, Pending(s)
  {
    if Step(s).None? then s
    else
      StepProgress(s);
      Run(Step(s).value)
  }

  /** The machine resumed at every arrival. */
  function RunArrivals(s: Rfb, chunks: seq<seq<byte>>): Rfb
    decreases |chunks|
  {
    if chunks == [] then s else RunArrivals(Run(Arrive(s, chunks[0])), chunks[1..])
  }

  // ----- chunk independence -----

  lemma {:induction false} RectUnitExtends(s: Rfb, more: seq<byte>)
    requires s.encoding.Some? && RectUnit(s).1 != Blocked
    ensures RectUnit(Arrive(s, more)) == (Arrive(RectUnit(s).0, more), RectUnit(s).1)
  {
    hide RawDecoder.Unit, RreDecoder.Unit, HextileDecoder.Unit, CopyRectDecoder.Unit, Resized;
    var e := s.encoding.value;
    if e == ENCODING_RAW {
      RawDecoder.UnitExtends(s.lines, s.io, s.rect, s.depth8, more);
    } else if e == ENCODING_COPYRECT {
      CopyRectDecoder.UnitExtends(s.io, s.rect, more);
    } else if e == ENCODING_RRE {
      RreDecoder.UnitExtends(s.subrects, s.io, s.rect, more);
    } else if e == ENCODING_HEXTILE {
      HextileDecoder.UnitExtends(s.hex, s.io, s.rect, more);
    }
  }

  /** A step that is possible is possible, and does the same, with more bytes behind it. */
  lemma {:induction false} StepExtends(s: Rfb, more: seq<byte>)
    requires Step(s).Some?
    ensures Step(Arrive(s, more)) == Some(Arrive(Step(s).value, more))
  {
    hide RectUnit;
    if s.rects == 0 {
      SkipExtend(s.io, if s.io.inp[0] == MSG_FRAMEBUFFER_UPDATE then 4 else 1, more);
    } else if s.encoding.None? {
      SkipExtend(s.io, 12, more);
    } else {
      RectUnitExtends(s, more);
    }
  }

  /** Running before more bytes arrive changes nothing in the end. */
  lemma {:induction false} RunResumes(s: Rfb, more: seq<byte>)
    ensures Run(Arrive(s, more)) == Run(Arrive(Run(s), more))
    decreases if s.halted then 0 else 1, |s.io.inp|, s.rects, Pending(s)
  {
    hide Step, Pending;
    if Step(s).Some? {
      StepProgress(s);
      StepExtends(s, more);
      RunResumes(Step(s).value, more);
    }
  }

  /** Chunk independence: for every machine state and every way of cutting a byte stream into arrivals, the
      resumed machine ends in exactly the state, framebuffer, decoder fields and unread bytes included,
      that one arrival of all the bytes leads to. */
  lemma {:induction false} UpdatesAreChunkIndependent(s: Rfb, chunks: seq<seq<byte>>)
    ensures RunArrivals(Run(s), chunks) == Run(Arrive(s, Concat(chunks)))
    decreases |chunks|
  {
    hide Step, Run;
    if chunks == [] {
      assert s.io.inp + [] == s.io.inp;
    } else {
      var s1 := Arrive(s, chunks[0]);
      RunResumes(s, chunks[0]);
      UpdatesAreChunkIndependent(s1, chunks[1..]);
      assert s.io.inp + chunks[0] + Concat(chunks[1..]) == s.io.inp + Concat(chunks);
    }
  }

  /** Two ways of cutting the same bytes end in the same state. */
  lemma {:induction false} CutsAgree(s: Rfb, cutA: seq<seq<byte>>, cutB: seq<seq<byte>>)
    requires Concat(cutA) == Concat(cutB)
    ensures RunArrivals(Run(s), cutA) == RunArrivals(Run(s), cutB)
  {
    hide Step, Run, RunArrivals;
    UpdatesAreChunkIndependent(s, cutA);
    UpdatesAreChunkIndependent(s, cutB);
  }
}
