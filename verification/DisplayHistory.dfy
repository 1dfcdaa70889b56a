/** What a whole session paints: the picture that every drawing call, carried out at once and in turn,
    would make, with the resizes in between. */
module DisplayHistory {
  import opened Canvas
  import opened Display
  import opened DisplayProofs
  import opened DisplayViewport
  import opened DisplayRuns
  import opened DisplayResizes

  /** What a call asks of the picture, whatever state the display is in. */
  datatype Op = Paint(a: Action) | Size(w: nat, h: nat)

  function Asks(call: Call): seq<Op> {
    match call
    case CallFill(x, y, w, h, color) => [Paint(FillAct(x, y, w, h, color))]
    case CallCopy(oldX, oldY, x, y, w, h) => [Paint(CopyAct(oldX, oldY, x, y, w, h))]
    case CallBlit(x, y, w, h, buffer, start) =>
      if start + w * h > |buffer| then [] else [Paint(BlitAct(x, y, w, h, buffer[start..start + w * h]))]
    case CallPicture(img, x, y, w, h) => if w == 0 || h == 0 then [] else [Paint(ImgAct(img, x, y, w, h))]
    case CallResize(w, h) => [Size(w, h)]
    case _ => []
  }

  function AllAsks(calls: seq<Call>): seq<Op> {
    if calls == [] then [] else Asks(calls[0]) + AllAsks(calls[1..])
  }

  function Painted(img: Image, ops: seq<Op>): Image
    decreases |ops|
  {
    if ops == [] then img
    else
      var next := match ops[0] case Paint(a) => Drawn(img, a) case Size(w, h) => Resized(img, w, h);
      Painted(next, ops[1..])
  }

  lemma {:induction false} PaintedAppend(img: Image, a: seq<Op>, b: seq<Op>)
    ensures Painted(img, a + b) == Painted(Painted(img, a), b)
    decreases |a|
  {
    hide Drawn, Resized;
    if a == [] {
      assert a + b == b;
    } else {
      assert (a + b)[0] == a[0] && (a + b)[1..] == a[1..] + b;
      var next := match a[0] case Paint(x) => Drawn(img, x) case Size(w, h) => Resized(img, w, h);
      PaintedAppend(next, a[1..], b);
    }
  }

  /** The picture there will be once everything that waits has been drawn. */
  function Eventual(d: Screen): Image {
    DrawnAll(d.back, d.renderQ)
  }

  lemma {:induction false} DrawnAppend(back: Image, a: seq<Action>, b: seq<Action>)
    ensures DrawnAll(back, a + b) == DrawnAll(DrawnAll(back, a), b)
    decreases |b|
  {
    hide Drawn;
    if b == [] {
      assert a + b == a;
    } else {
      assert (a + b)[..|a + b| - 1] == a + b[..|b| - 1];
      DrawnAppend(back, a, b[..|b| - 1]);
    }
  }

  lemma {:induction false} FlipsDrawNothing(back: Image, flips: seq<Action>)
    requires forall a <- flips :: a == FlipAct
    ensures DrawnAll(back, flips) == back
    decreases |flips|
  {
    if flips != [] {
      var init := flips[..|flips| - 1];
      assert forall a <- init :: a in flips;
      assert flips[|flips| - 1] in flips;
      FlipsDrawNothing(back, init);
    }
  }

  /** Counted from the last resize, the eventual picture is that of everything drawn or waiting. */
  lemma EventualFromBase(d: Screen)
    requires Replays(d)
    ensures d.baseMark <= |All(d)| && Eventual(d) == DrawnAll(d.base, All(d)[d.baseMark..])
  {
    hide DrawnAll;
    assert All(d)[d.baseMark..] == d.drawn[d.baseMark..] + d.renderQ;
    DrawnAppend(d.base, d.drawn[d.baseMark..], d.renderQ);
  }

  lemma EventualAdded(d: Screen, e: Screen, added: seq<Action>)
    requires Replays(d) && Replays(e) && SameBase(d, e) && All(e) == All(d) + added
    ensures Eventual(e) == DrawnAll(Eventual(d), added)
  {
    EventualFromBase(d);
    EventualFromBase(e);
    hide DrawnAll, Replays, Eventual;
    assert All(e)[d.baseMark..] == All(d)[d.baseMark..] + added;
    DrawnAppend(d.base, All(d)[d.baseMark..], added);
  }

  lemma FlipsAdded(d: Screen, e: Screen)
    requires OnlyFlips(d, e)
    ensures var flips := All(e)[|All(d)|..]; All(e) == All(d) + flips && forall a <- flips :: a == FlipAct
  {
  }

  lemma MovesPaintNothing(d: Screen, e: Screen)
    requires Replays(d) && Moves(d, e)
    ensures Eventual(e) == Eventual(d)
  {
    hide Eventual, DrawnAll, HasSize, AsAsked;
    FlipsAdded(d, e);
    EventualAdded(d, e, All(e)[|All(d)|..]);
    FlipsDrawNothing(Eventual(d), All(e)[|All(d)|..]);
  }

  /** A canvas set to the size it has is not changed. */
  lemma SameSize(img: Image, w: nat, h: nat)
    requires HasSize(img, w, h)
    ensures Resized(img, w, h) == img
  {
    var r := Resized(img, w, h);
    assert forall p: Point :: p in r <==> p in img;
  }

  /** What waits when the framebuffer is resized is drawn afterwards, on the resized picture. */
  lemma {:induction false} ResizeDrawsLater(d: Screen, width: nat, height: nat)
    requires RunInv(d)
    ensures Eventual(Resize(d, width, height)) == DrawnAll(Resized(d.back, width, height), d.renderQ)
  {
    hide DrawnAll, Resized, Resize, Agrees, AsAsked;
    ResizeInOrder(d, width, height);
    var e := Resize(d, width, height);
    EventualFromBase(e);
    FlipsAdded(d, e);
    var flips := All(e)[|All(d)|..];
    assert All(e)[|d.drawn|..] == d.renderQ + flips;
    DrawnAppend(e.base, d.renderQ, flips);
    FlipsDrawNothing(DrawnAll(e.base, d.renderQ), flips);
    if d.backWidth == width && d.backHeight == height {
      SameSize(d.back, width, height);
    }
  }

  lemma OnePaint(img: Image, a: Action)
    ensures Painted(img, [Paint(a)]) == Drawn(img, a) == DrawnAll(img, [a])
  {
    hide Drawn;
    var op := Paint(a);
    assert [op][1..] == [] && [op][0] == op;
    assert [a][..0] == [] && DrawnAll(img, []) == img;
  }

  lemma NoOps(img: Image)
    ensures Painted(img, []) == img && DrawnAll(img, []) == img
  {
  }

  /** A call that draws. */
  lemma PaintStep(d: Screen, e: Screen, a: Action)
    requires Replays(d) && Replays(e) && SameBase(d, e) && All(e) == All(d) + [a]
    ensures Eventual(e) == Painted(Eventual(d), [Paint(a)])
  {
    hide DrawnAll, Drawn, Painted, Replays;
    EventualAdded(d, e, [a]);
    OnePaint(Eventual(d), a);
  }

  lemma NoPaintStep(d: Screen, e: Screen)
    requires Replays(d) && Replays(e) && SameBase(d, e) && All(e) == All(d)
    ensures Eventual(e) == Painted(Eventual(d), [])
  {
    hide DrawnAll, Painted, Replays;
    assert All(d) + [] == All(d);
    EventualAdded(d, e, []);
    NoOps(Eventual(d));
  }

  lemma {:induction false} EmptyBlit(img: Image, x: int, y: int, w: nat, h: nat, data: seq<Pixel>)
    requires w == 0 || h == 0
    ensures Drawn(img, BlitAct(x, y, w, h, data)) == img
  {
    hide RowMajor;
  }

  lemma NoArea(w: nat, h: nat)
    requires w * h == 0
    ensures w == 0 || h == 0
  {
  }

  lemma BlitStep(d: Screen, x: int, y: int, w: nat, h: nat, buffer: seq<Pixel>, start: nat)
    requires RunInv(d) && BlitFaithful(d, w, h, buffer, start)
    ensures Eventual(Blit(d, x, y, w, h, buffer, start)) ==
            Painted(Eventual(d), Asks(CallBlit(x, y, w, h, buffer, start)))
  {
    hide DrawnAll, Drawn, Painted, Replays, DamageInv, Eventual;
    BlitAdded(d, x, y, w, h, buffer, start);
    var e := Blit(d, x, y, w, h, buffer, start);
    hide Blit;
    if BlitThrows(d, w, h, buffer, start) {
      assert All(d) + [] == All(d);
      NoPaintStep(d, e);
    } else if start + w * h <= |buffer| {
      var a := BlitAct(x, y, w, h, buffer[start..start + w * h]);
      PaintStep(d, e, a);
    } else {
      var a := BlitAct(x, y, w, h, Slice(buffer, 0, w * h));
      assert buffer[..w * h] == [];
      assert w == 0 || h == 0 by { NoArea(w, h); }
      PaintStep(d, e, a);
      OnePaint(Eventual(d), a);
      EmptyBlit(Eventual(d), x, y, w, h, a.data);
      NoOps(Eventual(d));
    }
  }

  /** One call paints what it asks for, if it is not a blit read from the wrong place or a resize that
      overtakes an action that does not survive it. */
  lemma {:induction false} StepPaints(d: Screen, call: Call)
    requires RunInv(d) && Faithful(d, call) && (call.CallResize? ==> QueueSurvives(d, call.w, call.h))
    ensures Eventual(Apply(d, call)) == Painted(Eventual(d), Asks(call))
  {
    hide DrawnAll, Drawn, Painted, Replays, DamageInv, Eventual, BlitFaithful, Sizes, AsAsked, Appends, QueueSurvives;
    hide Submit, Blit, DrawPicture, ImageLoaded, RequestFlush, ChangePos, ChangeSize, SetClip, Resize;
    var e := Apply(d, call);
    NoOps(Eventual(d));
    match call
    case CallFlip =>
      SubmitInOrder(d, FlipAct);
      PaintStep(d, e, FlipAct);
      OnePaint(Eventual(d), FlipAct);
      FlipDrawsNothing(Eventual(d));
    case CallFill(x, y, w, h, color) =>
      SubmitInOrder(d, FillAct(x, y, w, h, color));
      PaintStep(d, e, FillAct(x, y, w, h, color));
    case CallCopy(oldX, oldY, x, y, w, h) =>
      SubmitInOrder(d, CopyAct(oldX, oldY, x, y, w, h));
      PaintStep(d, e, CopyAct(oldX, oldY, x, y, w, h));
    case CallBlit(x, y, w, h, buffer, start) => BlitStep(d, x, y, w, h, buffer, start);
    case CallPicture(img, x, y, w, h) => PictureStep(d, img, x, y, w, h);
    case CallLoaded(id) =>
      LoadedInOrder(d, id);
      NoPaintStep(d, e);
    case CallFlush =>
      FlushInOrder(d);
      NoPaintStep(d, e);
    case CallPos(dx, dy) =>
      Parts(d);
      ChangePosInOrder(d, dx, dy);
      MovesPaintNothing(d, e);
    case CallSize(w, h) =>
      ChangeSizeInOrder(d, w, h);
      MovesPaintNothing(d, e);
    case CallClip(on) =>
      SetClipInOrder(d, on);
      MovesPaintNothing(d, e);
    case CallResize(w, h) => ResizeStep(d, w, h);
  }

  lemma FlipDrawsNothing(img: Image)
    ensures Drawn(img, FlipAct) == img
  {
  }

  lemma PictureStep(d: Screen, img: Picture, x: int, y: int, w: nat, h: nat)
    requires RunInv(d)
    ensures Eventual(DrawPicture(d, img, x, y, w, h)) == Painted(Eventual(d), Asks(CallPicture(img, x, y, w, h)))
  {
    hide DrawnAll, Drawn, Painted, Replays, DamageInv, Eventual, DrawPicture, AsAsked, Appends;
    PictureInOrder(d, img, x, y, w, h);
    var e := DrawPicture(d, img, x, y, w, h);
    if w == 0 || h == 0 {
      assert All(d) + [] == All(d);
      NoPaintStep(d, e);
    } else {
      PaintStep(d, e, ImgAct(img, x, y, w, h));
    }
  }

  /** A resize does to the eventual picture what it does to the backbuffer, if every waiting action survives
      being overtaken by it. */
  lemma {:induction false} ResizeCommutes(d: Screen, w: nat, h: nat)
    requires RunInv(d) && QueueSurvives(d, w, h)
    ensures Eventual(Resize(d, w, h)) == Resized(Eventual(d), w, h)
  {
    assert HasSize(d.back, d.backWidth, d.backHeight);
    hide Drawn, Resized, Resize, Replays, DamageInv, HasSize, AllSurvive;
    ResizeDrawsLater(d, w, h);
    AllCommute(d.back, d.renderQ, d.backWidth, d.backHeight, w, h);
  }

  lemma {:induction false} ResizeStep(d: Screen, w: nat, h: nat)
    requires RunInv(d) && QueueSurvives(d, w, h)
    ensures Eventual(Resize(d, w, h)) == Painted(Eventual(d), [Size(w, h)])
  {
    hide Drawn, Resized, Resize, RunInv, Eventual;
    ResizeCommutes(d, w, h);
    var op := Size(w, h);
    assert [op][0] == op && [op][1..] == [];
    assert Painted(Eventual(d), [op]) == Painted(Resized(Eventual(d), w, h), []);
  }

  /** A display that holds the picture and on which the action waits. */
  function Waiting(img: Image, w: nat, h: nat, a: Action): Screen {
    Screen(w, h, w, h, img, Blank(0, 0), Viewport(0, 0, 0, 0), NO_DAMAGE, true,
           [a], false, {}, {}, [a], [], img, 0, 0)
  }

  lemma {:induction false} WaitingIsSound(img: Image, w: nat, h: nat, a: Action)
    requires HasSize(img, w, h)
    ensures var d := Waiting(img, w, h, a);
            RunInv(d) && d.backWidth == w && d.backHeight == h && d.renderQ == [a] && d.back == img
  {
  }

  lemma OneDrawn(img: Image, a: Action)
    ensures DrawnAll(img, [a]) == Drawn(img, a)
  {
    hide Drawn;
    assert [a][..0] == [] && DrawnAll(img, []) == img;
  }

  /** Exactly when a resize may overtake a waiting action, whatever the picture: if the action survives. */
  lemma {:induction false} OvertakenIff(a: Action, oldW: nat, oldH: nat, w: nat, h: nat)
    ensures (forall d: Screen :: RunInv(d) && d.backWidth == oldW && d.backHeight == oldH && d.renderQ == [a] ==>
               Eventual(Resize(d, w, h)) == Resized(Eventual(d), w, h))
            <==> Survives(a, oldW, oldH, w, h)
  {
    hide Drawn, Resized, Resize, RunInv, Survives, HasSize, Eventual;
    if Survives(a, oldW, oldH, w, h) {
      forall d: Screen | RunInv(d) && d.backWidth == oldW && d.backHeight == oldH && d.renderQ == [a]
        ensures Eventual(Resize(d, w, h)) == Resized(Eventual(d), w, h)
      {
        ResizeCommutes(d, w, h);
      }
    } else {
      CommutesIff(a, oldW, oldH, w, h);
      var img: Image :| HasSize(img, oldW, oldH) && Resized(Drawn(img, a), w, h) != Drawn(Resized(img, w, h), a);
      var d := Waiting(img, oldW, oldH, a);
      WaitingIsSound(img, oldW, oldH, a);
      hide Waiting;
      ResizeDrawsLater(d, w, h);
      OneDrawn(Resized(img, w, h), a);
      assert Eventual(d) == Drawn(img, a) by { EventualOne(d, a); }
    }
  }

  lemma EventualOne(d: Screen, a: Action)
    requires d.renderQ == [a]
    ensures Eventual(d) == Drawn(d.back, a)
  {
    hide Drawn;
    OneDrawn(d.back, a);
  }

  /** Every resize of the run overtakes only actions that survive it. */
  ghost predicate ResizesSpare(d: Screen, calls: seq<Call>)
    decreases |calls|
  {
    calls == [] || (
      && (calls[0].CallResize? ==> QueueSurvives(d, calls[0].w, calls[0].h))
      && ResizesSpare(Apply(d, calls[0]), calls[1..]))
  }

  /** The session theorem, from any state a run can be in: once what waits has been drawn, the backbuffer is
      the picture the calls ask for, carried out in turn, resizes included. */
  lemma {:induction false} SessionPaints(d: Screen, calls: seq<Call>)
    requires RunInv(d) && AllFaithful(d, calls) && ResizesSpare(d, calls)
    ensures var e := Run(d, calls); Eventual(e) == Painted(Eventual(d), AllAsks(calls))
    decreases |calls|
  {
    hide RunInv, Apply, Faithful, Eventual, Painted, Asks;
    if calls == [] {
      NoOps(Eventual(d));
    } else {
      var e := Apply(d, calls[0]);
      ApplyKeeps(d, calls[0]);
      StepPaints(d, calls[0]);
      SessionPaints(e, calls[1..]);
      PaintedAppend(Eventual(d), Asks(calls[0]), AllAsks(calls[1..]));
    }
  }

  /** A new display after any such session: if nothing waits at the end, every action has been drawn in the
      order asked for, and the backbuffer is the picture asked for. */
  lemma {:induction false} DrainedAsImmediate(width: nat, height: nat, calls: seq<Call>)
    requires var d := NewScreen(width, height); AllFaithful(d, calls) && ResizesSpare(d, calls)
    ensures var e := Run(NewScreen(width, height), calls);
            e.renderQ == [] ==> e.drawn == e.submitted && e.back == Painted(Blank(300, 150), AllAsks(calls)) && !e.flushing
  {
    var d := NewScreen(width, height);
    NewScreenAgrees(width, height);
    assert RunInv(d);
    assert Eventual(d) == Blank(300, 150) by { NoOps(Blank(300, 150)); }
    hide Apply, DamageInv, DrawnAll, Painted, NewScreen, Blank;
    SessionPaints(d, calls);
    InOrderFromTheStart(width, height, calls);
    var e := Run(d, calls);
    NoOps(e.back);
    assert e.renderQ == [] ==> e.drawn + e.renderQ == e.drawn;
  }

  // ----- sessions without images draw at once -----

  lemma SubmitStaysEmpty(d: Screen, a: Action)
    requires d.renderQ == []
    ensures Submit(d, a).renderQ == []
  {
    hide Drawn, Refreshed;
  }

  lemma ChangePosStaysEmpty(d: Screen, deltaX: int, deltaY: int)
    requires d.renderQ == []
    ensures ChangePos(d, deltaX, deltaY).renderQ == []
  {
    hide Submit, ClampX, ClampY;
    var vp := d.viewport.(x := d.viewport.x + ClampX(d, deltaX), y := d.viewport.y + ClampY(d, deltaY));
    SubmitStaysEmpty(Damage(d.(viewport := vp), vp.x, vp.y, vp.w, vp.h), FlipAct);
  }

  lemma ChangeSizeStaysEmpty(d: Screen, width: nat, height: nat)
    requires d.renderQ == []
    ensures ChangeSize(d, width, height).renderQ == []
  {
    hide Submit, ChangePos;
    var vp := Sized(d, width, height);
    var d0 := d.(viewport := vp, target := Blank(vp.w, vp.h));
    ChangePosStaysEmpty(d0, 0, 0);
    var d1 := ChangePos(d0, 0, 0);
    SubmitStaysEmpty(Damage(d1, d1.viewport.x, d1.viewport.y, d1.viewport.w, d1.viewport.h), FlipAct);
  }

  /** Only an image makes anything wait. */
  lemma {:induction false} ApplyStaysEmpty(d: Screen, call: Call)
    requires d.renderQ == [] && !call.CallPicture?
    ensures Apply(d, call).renderQ == []
  {
    hide Submit, ChangePos, ChangeSize, Drawn, Refreshed, Resized;
    match call
    case CallFlip => SubmitStaysEmpty(d, FlipAct);
    case CallFill(x, y, w, h, color) => SubmitStaysEmpty(d, FillAct(x, y, w, h, color));
    case CallCopy(oldX, oldY, x, y, w, h) => SubmitStaysEmpty(d, CopyAct(oldX, oldY, x, y, w, h));
    case CallBlit(x, y, w, h, buffer, start) =>
    case CallLoaded(id) =>
    case CallFlush =>
    case CallPos(dx, dy) => ChangePosStaysEmpty(d, dx, dy);
    case CallSize(w, h) => ChangeSizeStaysEmpty(d, w, h);
    case CallClip(on) =>
      var d1 := d.(clip := on);
      ChangeSizeStaysEmpty(d1, d1.viewport.w, d1.viewport.h);
      ChangePosStaysEmpty(ChangeSize(d1, d1.viewport.w, d1.viewport.h), 0, 0);
    case CallResize(w, h) =>
      var d1 := WithNewSize(d, w, h);
      ChangeSizeStaysEmpty(d1, d1.viewport.w, d1.viewport.h);
      ChangePosStaysEmpty(ChangeSize(d1, d1.viewport.w, d1.viewport.h), 0, 0);
  }

  lemma {:induction false} RunStaysEmpty(d: Screen, calls: seq<Call>)
    requires d.renderQ == [] && forall c <- calls :: !c.CallPicture?
    ensures Run(d, calls).renderQ == [] && AllFaithful(d, calls) && ResizesSpare(d, calls)
    decreases |calls|
  {
    hide Apply;
    if calls != [] {
      assert calls[0] in calls;
      ApplyStaysEmpty(d, calls[0]);
      RunStaysEmpty(Apply(d, calls[0]), calls[1..]);
    }
  }

  /** Without images nothing ever waits: whatever the offsets of its blits, wherever its resizes and moves,
      a session leaves the backbuffer as the picture its calls ask for. */
  lemma {:induction false} NoImagesAsImmediate(d: Screen, calls: seq<Call>)
    requires RunInv(d) && d.renderQ == [] && forall c <- calls :: !c.CallPicture?
    ensures var e := Run(d, calls); e.renderQ == [] && e.back == Painted(d.back, AllAsks(calls))
  {
    hide RunInv, Apply, DrawnAll, Painted;
    RunStaysEmpty(d, calls);
    SessionPaints(d, calls);
    NoOps(d.back);
    NoOps(Run(d, calls).back);
  }

  // ----- a resize that overtakes what waits -----

  lemma {:induction false} CutOffSource(back: Image, img: Picture)
    requires img.width == img.height == 1
    requires HasSize(back, 10, 10) && back[(0, 0)].Transparent? && back[(9, 0)].Opaque?
    ensures var a, b := ImgAct(img, 1, 1, 1, 1), CopyAct(9, 0, 0, 0, 1, 1);
            var late, early := Drawn(Drawn(Resized(back, 5, 5), a), b), Resized(Drawn(Drawn(back, a), b), 5, 5);
            && (0, 0) in late && late[(0, 0)].Transparent?
            && (0, 0) in early && early[(0, 0)] == back[(9, 0)]
  {
    var a, b := ImgAct(img, 1, 1, 1, 1), CopyAct(9, 0, 0, 0, 1, 1);
    var one := Drawn(back, a);
    SmallImageSurvives(img);
    SameEverywhere(back, a, 10, 10, 5, 5);
    DrawnKeepsSize(back, a, 10, 10);
    assert InBox((0, 0), 0, 0, 5, 5) && !InBox((9, 0), 0, 0, 5, 5) && InBox((0, 0), 0, 0, 10, 10) && InBox((9, 0), 0, 0, 10, 10);
    assert (0, 0) in back && (9, 0) in back;
    assert one[(0, 0)] == back[(0, 0)] && one[(9, 0)] == back[(9, 0)];
    OrdersAt(one, b, 10, 10, 5, 5, (0, 0));
    SourceAt(one, 10, 10, 5, 5, (9, 0));
    hide Drawn, Resized, HasSize;
  }

  lemma SmallImageSurvives(img: Picture)
    requires img.width == img.height == 1
    ensures Survives(ImgAct(img, 1, 1, 1, 1), 10, 10, 5, 5)
  {
  }

  /** The source of this copy is not kept, so by the condition for copies it does not survive. */
  lemma CutOffCopyIsLost()
    ensures !Survives(CopyAct(9, 0, 0, 0, 1, 1), 10, 10, 5, 5)
  {
    assert InBox((0, 0), 0, 0, 5, 5) && !SurvivesAt(CopyAct(9, 0, 0, 0, 1, 1), 10, 10, 5, 5, (0, 0));
  }

  lemma CopyWaits(d: Screen, img: Picture)
    requires RunInv(d) && d.renderQ == [] && img.id !in d.loaded
    ensures var e := Run(d, [CallPicture(img, 1, 1, 1, 1), CallCopy(9, 0, 0, 0, 1, 1)]);
            RunInv(e) && e.renderQ == [ImgAct(img, 1, 1, 1, 1), CopyAct(9, 0, 0, 0, 1, 1)] && e.back == d.back
  {
    hide DamageInv, Replays;
    var picture, copy := CallPicture(img, 1, 1, 1, 1), CallCopy(9, 0, 0, 0, 1, 1);
    var a, b := ImgAct(img, 1, 1, 1, 1), CopyAct(9, 0, 0, 0, 1, 1);
    RunTwo(d, picture, copy);
    PictureInOrder(d, img, 1, 1, 1, 1);
    assert [] + [a] == [a] && [a][0] == a;
    var e1 := DrawPicture(d, img, 1, 1, 1, 1);
    assert e1.renderQ == [a] && e1.back == d.back;
    SubmitInOrder(e1, b);
    assert [a] + [b] == [a, b];
  }

  /** With an image loading, a copy waits; a resize that cuts off the copy's source comes first, and the copy,
      which does not survive that, finds nothing. */
  lemma {:induction false} ResizeOvertakesCopy(d: Screen, img: Picture)
    requires RunInv(d) && d.renderQ == [] && img.id !in d.loaded && img.width == img.height == 1
    requires HasSize(d.back, 10, 10) && d.back[(0, 0)].Transparent? && d.back[(9, 0)].Opaque?
    ensures var e := Run(d, [CallPicture(img, 1, 1, 1, 1), CallCopy(9, 0, 0, 0, 1, 1)]);
            var late, early := Eventual(Resize(e, 5, 5)), Resized(Eventual(e), 5, 5);
            && CopyAct(9, 0, 0, 0, 1, 1) in e.renderQ && !Survives(CopyAct(9, 0, 0, 0, 1, 1), 10, 10, 5, 5)
            && (0, 0) in late && late[(0, 0)].Transparent?
            && (0, 0) in early && early[(0, 0)] == d.back[(9, 0)]
  {
    hide Run, Resize, RunInv, DrawnAll, Drawn, Resized, HasSize;
    var e := Run(d, [CallPicture(img, 1, 1, 1, 1), CallCopy(9, 0, 0, 0, 1, 1)]);
    CopyWaits(d, img);
    CutOffCopyIsLost();
    ResizeDrawsLater(e, 5, 5);
    TwoDrawn(Resized(d.back, 5, 5), ImgAct(img, 1, 1, 1, 1), CopyAct(9, 0, 0, 0, 1, 1));
    TwoDrawn(d.back, ImgAct(img, 1, 1, 1, 1), CopyAct(9, 0, 0, 0, 1, 1));
    CutOffSource(d.back, img);
  }

  lemma RunTwo(d: Screen, x: Call, y: Call)
    ensures Run(d, [x, y]) == Apply(Apply(d, x), y)
  {
    hide Apply;
    assert [x, y][1..] == [y] && [y][1..] == [];
    assert Run(Apply(d, x), [y]) == Run(Apply(Apply(d, x), y), []);
  }

  lemma TwoDrawn(back: Image, a: Action, b: Action)
    ensures DrawnAll(back, [a, b]) == Drawn(Drawn(back, a), b)
  {
    hide Drawn;
    assert [a, b][..1] == [a] && [a][..0] == [];
    assert DrawnAll(back, [a]) == Drawn(DrawnAll(back, []), a);
  }

  /** Such a state is reached by resizing a new display and painting one pixel. */
  lemma {:induction false} OvertakingIsReachable(c: Color)
    ensures var d := Run(NewScreen(10, 10), [CallResize(10, 10), CallFill(9, 0, 1, 1, c)]);
            && RunInv(d) && d.renderQ == [] && d.loaded == {}
            && HasSize(d.back, 10, 10) && d.back[(0, 0)].Transparent? && d.back[(9, 0)] == Opaque(c)
  {
    var d0 := NewScreen(10, 10);
    StartsSound();
    hide RunInv, Run, NewScreen, Blank, Drawn, HasSize, Resized;
    PaintedOnePixel(d0, c);
    LoadsNothing(d0, c);
    OnePixel(d0.back, c);
  }

  lemma StartsSound()
    ensures var d := NewScreen(10, 10); RunInv(d) && d.renderQ == [] && d.loaded == {} && d.back == Blank(300, 150)
  {
    NewScreenAgrees(10, 10);
  }

  lemma PaintedOnePixel(d: Screen, c: Color)
    requires RunInv(d) && d.renderQ == []
    ensures var e := Run(d, [CallResize(10, 10), CallFill(9, 0, 1, 1, c)]);
            RunInv(e) && e.renderQ == [] && e.back == Drawn(Resized(d.back, 10, 10), FillAct(9, 0, 1, 1, c))
  {
    hide RunInv, Run, Resized, Painted, Drawn, AsAsked, Appends;
    var calls := [CallResize(10, 10), CallFill(9, 0, 1, 1, c)];
    RunKeeps(d, calls);
    NoImagesAsImmediate(d, calls);
    ResizedAndFilled(d.back, 10, 10, 9, 0, 1, 1, c);
  }

  lemma {:induction false} LoadsNothing(d: Screen, c: Color)
    ensures Run(d, [CallResize(10, 10), CallFill(9, 0, 1, 1, c)]).loaded == d.loaded
  {
    hide Resize, Submit;
    RunTwo(d, CallResize(10, 10), CallFill(9, 0, 1, 1, c));
    ResizeLoads(d, 10, 10);
    SubmitFrame(Resize(d, 10, 10), FillAct(9, 0, 1, 1, c));
  }

  lemma {:induction false} ResizedAndFilled(img: Image, w: nat, h: nat, x: int, y: int, fw: nat, fh: nat, c: Color)
    ensures Painted(img, AllAsks([CallResize(w, h), CallFill(x, y, fw, fh, c)])) ==
            Drawn(Resized(img, w, h), FillAct(x, y, fw, fh, c))
  {
    hide Drawn, Resized;
    var resize, fill := CallResize(w, h), CallFill(x, y, fw, fh, c);
    assert [resize, fill][1..] == [fill] && [fill][1..] == [];
    assert AllAsks([fill]) == Asks(fill) + AllAsks([]);
    var one, two := Size(w, h), Paint(FillAct(x, y, fw, fh, c));
    assert AllAsks([resize, fill]) == [one, two];
    assert [one, two][1..] == [two] && [two][1..] == [];
    assert Painted(img, [one, two]) == Painted(Resized(img, w, h), [two]);
    OnePaint(Resized(img, w, h), FillAct(x, y, fw, fh, c));
  }

  lemma {:induction false} ResizeLoads(d: Screen, w: nat, h: nat)
    ensures Resize(d, w, h).loaded == d.loaded
  {
    hide ChangePos, ChangeSize, Resized;
    var d1 := WithNewSize(d, w, h);
    ChangeSizeFrame(d1, d1.viewport.w, d1.viewport.h);
    ChangePosFrame(ChangeSize(d1, d1.viewport.w, d1.viewport.h), 0, 0);
  }

  lemma {:induction false} OnePixel(back: Image, c: Color)
    requires back == Blank(300, 150)
    ensures var img := Drawn(Resized(back, 10, 10), FillAct(9, 0, 1, 1, c));
            && HasSize(img, 10, 10) && (0, 0) in img && (9, 0) in img
            && img[(0, 0)].Transparent? && img[(9, 0)] == Opaque(c)
  {
    var sized := Resized(back, 10, 10);
    assert InBox((0, 0), 0, 0, 10, 10) && InBox((9, 0), 0, 0, 10, 10) && InBox((0, 0), 0, 0, 300, 150);
    assert (0, 0) in sized && (9, 0) in sized && sized[(0, 0)].Transparent?;
    assert HasSize(sized, 10, 10);
    hide Resized, Blank;
    FilledPixel(sized, c);
  }

  lemma {:induction false} FilledPixel(back: Image, c: Color)
    requires HasSize(back, 10, 10) && (0, 0) in back && (9, 0) in back
    ensures var img := Drawn(back, FillAct(9, 0, 1, 1, c));
            HasSize(img, 10, 10) && img[(0, 0)] == back[(0, 0)] && img[(9, 0)] == Opaque(c)
  {
    var img := Drawn(back, FillAct(9, 0, 1, 1, c));
    assert forall p: Point :: p in img <==> p in back;
  }
}
