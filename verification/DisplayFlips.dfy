/** What a flip makes visible: when the visible canvas is the backbuffer's viewport, and when it is not. */
module DisplayFlips {
  import opened Canvas
  import opened Display
  import opened DisplayProofs
  import opened DisplayViewport
  import opened DisplayRuns
  import opened DisplayHistory

  /** The viewport lies on the backbuffer, which has the size of the framebuffer. */
  predicate OnScreen(d: Screen) {
    Inside(d) && d.backWidth == d.fbWidth && d.backHeight == d.fbHeight
  }

  /** The visible canvas is the backbuffer's viewport, pixel for pixel. */
  ghost predicate MirrorsAll(d: Screen) {
    forall p: Point :: InViewport(d, p) ==> Mirrors(d, p)
  }

  lemma ViewportOnBack(d: Screen, p: Point)
    requires Sizes(d) && OnScreen(d) && InViewport(d, p)
    ensures p in d.back && OnTarget(d, p) in d.target
  {
    assert InBox(p, 0, 0, d.backWidth, d.backHeight);
    assert InBox(OnTarget(d, p), 0, 0, d.viewport.w, d.viewport.h);
  }

  /** After an executed flip the visible canvas is the backbuffer's viewport if and only if it showed nothing
      over pixels that were never painted. */
  lemma FlipMirrorsIff(d: Screen)
    requires DamageInv(d) && OnScreen(d)
    ensures MirrorsAll(DoFlip(d)) <==> forall p: Point :: InViewport(d, p) ==> !Stale(d, p)
  {
    hide DoFlip, Agrees, HasSize;
    FlipFrame(d);
    forall p: Point | InViewport(d, p)
      ensures Mirrors(DoFlip(d), p) <==> !Stale(d, p)
    {
      ViewportOnBack(d, p);
      FlipIsExact(d, p);
    }
    assert forall p: Point :: InViewport(DoFlip(d), p) <==> InViewport(d, p);
  }

  // ----- painted backbuffers -----

  /** Every pixel of the picture has been painted. */
  ghost predicate Covered(img: Image) {
    forall p <- img :: img[p].Opaque?
  }

  /** An action that paints no transparent pixel over a painted one. */
  predicate Solid(a: Action) {
    a.BlitAct? ==> forall q <- a.data :: q.Opaque?
  }

  lemma DrawnStaysCovered(back: Image, a: Action)
    requires Covered(back) && Solid(a)
    ensures Covered(Drawn(back, a))
  {
    hide RowMajor;
  }

  lemma {:induction false} DrawnAllStaysCovered(back: Image, actions: seq<Action>)
    requires Covered(back) && forall a <- actions :: Solid(a)
    ensures Covered(DrawnAll(back, actions))
    decreases |actions|
  {
    hide Drawn, Covered, Solid;
    if actions != [] {
      var init := actions[..|actions| - 1];
      assert forall a <- init :: a in actions;
      assert actions[|actions| - 1] in actions;
      DrawnAllStaysCovered(back, init);
      DrawnStaysCovered(DrawnAll(back, init), actions[|actions| - 1]);
    }
  }

  /** The picture is painted everywhere, and what waits will not change that. */
  ghost predicate StaysCovered(d: Screen) {
    Covered(d.back) && forall a <- d.renderQ :: Solid(a)
  }

  lemma CoveredOn(d: Screen, e: Screen, added: seq<Action>)
    requires Replays(d) && Replays(e) && SameBase(d, e) && All(e) == All(d) + added
    requires StaysCovered(d) && forall a <- added :: Solid(a)
    ensures StaysCovered(e)
  {
    hide Covered, Solid, DrawnAll;
    var n := |d.drawn|;
    var moved := e.drawn[n..];
    assert All(e)[n..] == d.renderQ + added && All(e)[n..] == moved + e.renderQ;
    forall a | a in moved || a in e.renderQ ensures Solid(a) {
      assert a in moved + e.renderQ;
    }
    assert e.drawn[d.baseMark..] == d.drawn[d.baseMark..] + moved;
    DrawnAppend(d.base, d.drawn[d.baseMark..], moved);
    DrawnAllStaysCovered(d.back, moved);
  }

  /** A call that neither resizes nor blits transparent pixels. */
  predicate Paints(call: Call) {
    !call.CallResize? && (call.CallBlit? ==> forall q <- call.buffer :: q.Opaque?)
  }

  lemma SolidSlice(buffer: seq<Pixel>, start: nat, n: nat, x: int, y: int, w: nat, h: nat)
    requires forall q <- buffer :: q.Opaque?
    ensures Solid(BlitAct(x, y, w, h, Slice(buffer, start, n)))
  {
  }

  lemma MovesStayCovered(d: Screen, e: Screen)
    requires Replays(d) && StaysCovered(d) && Moves(d, e)
    ensures StaysCovered(e)
  {
    hide StaysCovered, DrawnAll, HasSize, AsAsked;
    FlipsAdded(d, e);
    CoveredOn(d, e, All(e)[|All(d)|..]);
  }

  lemma ApplyStaysCovered(d: Screen, call: Call)
    requires RunInv(d) && StaysCovered(d) && Paints(call)
    ensures StaysCovered(Apply(d, call))
  {
    hide StaysCovered, DrawnAll, Replays, DamageInv, AsAsked, Appends, Sizes;
    hide Submit, Blit, DrawPicture, ImageLoaded, RequestFlush, ChangePos, ChangeSize, SetClip;
    var e := Apply(d, call);
    assert All(d) + [] == All(d);
    match call
    case CallFlip => SubmitInOrder(d, FlipAct); CoveredOn(d, e, [FlipAct]);
    case CallFill(x, y, w, h, color) =>
      var a := FillAct(x, y, w, h, color);
      SubmitInOrder(d, a);
      CoveredOn(d, e, [a]);
    case CallCopy(oldX, oldY, x, y, w, h) =>
      var a := CopyAct(oldX, oldY, x, y, w, h);
      SubmitInOrder(d, a);
      CoveredOn(d, e, [a]);
    case CallBlit(x, y, w, h, buffer, start) =>
      BlitAdded(d, x, y, w, h, buffer, start);
      SolidSlice(buffer, if d.renderQ == [] then start else 0, w * h, x, y, w, h);
      CoveredOn(d, e, BlitAdds(d, x, y, w, h, buffer, start));
    case CallPicture(img, x, y, w, h) =>
      PictureInOrder(d, img, x, y, w, h);
      CoveredOn(d, e, if w == 0 || h == 0 then [] else [ImgAct(img, x, y, w, h)]);
    case CallLoaded(id) => LoadedInOrder(d, id); CoveredOn(d, e, []);
    case CallFlush => FlushInOrder(d); CoveredOn(d, e, []);
    case CallPos(dx, dy) => Parts(d); ChangePosInOrder(d, dx, dy); MovesStayCovered(d, e);
    case CallSize(w, h) => ChangeSizeInOrder(d, w, h); MovesStayCovered(d, e);
    case CallClip(on) => SetClipInOrder(d, on); MovesStayCovered(d, e);
  }

  lemma ApplyOnScreen(d: Screen, call: Call)
    requires RunInv(d) && OnScreen(d) && !call.CallResize?
    ensures OnScreen(Apply(d, call))
  {
    hide RunInv, Inside, Apply, AsAsked;
    ApplyKeeps(d, call);
    ApplyInside(d, call);
    ApplyFrame(d, call);
  }

  lemma ApplyFrame(d: Screen, call: Call)
    requires !call.CallResize?
    ensures Apply(d, call).fbWidth == d.fbWidth && Apply(d, call).fbHeight == d.fbHeight
  {
    hide Submit, Push, Blit, ChangePos, ChangeSize, ScanRenderQ;
    match call
    case CallFlip => SubmitFrame(d, FlipAct);
    case CallFill(x, y, w, h, color) => SubmitFrame(d, FillAct(x, y, w, h, color));
    case CallCopy(oldX, oldY, x, y, w, h) => SubmitFrame(d, CopyAct(oldX, oldY, x, y, w, h));
    case CallBlit(x, y, w, h, buffer, start) => BlitFrame(d, x, y, w, h, buffer, start);
    case CallPicture(img, x, y, w, h) => PushFrame(d.(submitted := d.submitted + [ImgAct(img, x, y, w, h)]), ImgAct(img, x, y, w, h));
    case CallLoaded(id) => ScanFrame(d.(loaded := d.loaded + {id}, listening := d.listening - {id}));
    case CallFlush =>
    case CallPos(dx, dy) => ChangePosFrame(d, dx, dy);
    case CallSize(w, h) => ChangeSizeFrame(d, w, h);
    case CallClip(on) =>
      var d1 := d.(clip := on);
      ChangeSizeFrame(d1, d1.viewport.w, d1.viewport.h);
      ChangePosFrame(ChangeSize(d1, d1.viewport.w, d1.viewport.h), 0, 0);
  }

  /** From a state in which the server has painted the whole framebuffer: in every run of drawing, moving and
      loading, a flip that is carried out leaves the visible canvas equal to the backbuffer's viewport. */
  lemma {:induction false} FlipsMirrorPainted(d: Screen, calls: seq<Call>)
    requires RunInv(d) && OnScreen(d) && StaysCovered(d) && forall c <- calls :: Paints(c)
    ensures MirrorsAll(DoFlip(Run(d, calls)))
    decreases |calls|
  {
    hide RunInv, OnScreen, StaysCovered, Apply, MirrorsAll;
    if calls == [] {
      CoveredIsNotStale(d);
    } else {
      assert calls[0] in calls;
      ApplyKeeps(d, calls[0]);
      ApplyOnScreen(d, calls[0]);
      ApplyStaysCovered(d, calls[0]);
      FlipsMirrorPainted(Apply(d, calls[0]), calls[1..]);
    }
  }

  lemma CoveredIsNotStale(d: Screen)
    requires RunInv(d) && OnScreen(d) && StaysCovered(d)
    ensures MirrorsAll(DoFlip(d))
  {
    hide DoFlip, Agrees, HasSize, Replays, MirrorsAll;
    FlipMirrorsIff(d);
  }

  // ----- a picture left standing -----

  /** A move does not clear the visible canvas: over a pixel that was never painted, it goes on showing what
      it showed at that place before. */
  lemma {:induction false} MoveKeepsStale(d: Screen, deltaX: int, deltaY: int, p: Point)
    requires DamageInv(d) && d.renderQ == [] && ChangePos(d, deltaX, deltaY).viewport != d.viewport
    requires InViewport(ChangePos(d, deltaX, deltaY), p) && p in d.back && d.back[p].Transparent?
    ensures var e := ChangePos(d, deltaX, deltaY);
            && p in e.back && e.back[p].Transparent? && e.damage == NO_DAMAGE
            && OnTarget(e, p) in d.target && OnTarget(e, p) in e.target
            && e.target[OnTarget(e, p)] == d.target[OnTarget(e, p)]
  {
    hide ClampX, ClampY, Refreshed, HasSize, Agrees;
    ChangePosFrame(d, deltaX, deltaY);
    var e := ChangePos(d, deltaX, deltaY);
    var d1 := Damage(d.(viewport := e.viewport), e.viewport.x, e.viewport.y, e.viewport.w, e.viewport.h);
    DamagedViewportAgrees(d.(viewport := e.viewport));
    var d2 := d1.(submitted := d1.submitted + [FlipAct], drawn := d1.drawn + [FlipAct]);
    assert e == DoFlip(d2);
    SamePictureKeeps(d1, d2);
    FlipShowsAll(d2);
    FlipFrame(d2);
    assert InViewport(d2, p);
  }

  /** A framebuffer of 20 by 10, clipped to a viewport of 10 by 10, whose left half is filled and shown. */
  function HalfFilled(c: Color): Screen {
    Run(NewScreen(20, 10), HalfFilling(c))
  }

  function HalfFilling(c: Color): seq<Call> {
    [CallResize(20, 10), CallClip(true), CallSize(10, 10), CallFill(0, 0, 10, 10, c), CallFlip]
  }

  lemma {:induction false} HalfFilledRun(c: Color)
    ensures HalfFilled(c) == Submit(Submit(Narrowed(), FillAct(0, 0, 10, 10, c)), FlipAct)
  {
    hide Submit, ChangeSize, SetClip, Resize, NewScreen;
    var calls := HalfFilling(c);
    var d := NewScreen(20, 10);
    assert calls[1..][1..] == calls[2..] && calls[2..][1..] == calls[3..] && calls[3..][1..] == calls[4..] && calls[4..][1..] == [];
    var d1 := Apply(d, calls[0]);
    var d2 := Apply(d1, calls[1]);
    var d3 := Apply(d2, calls[2]);
    var d4 := Apply(d3, calls[3]);
    assert Run(d, calls) == Run(d1, calls[1..]) == Run(d2, calls[2..]);
    assert Run(d2, calls[2..]) == Run(d3, calls[3..]);
    assert Run(d3, calls[3..]) == Run(d4, calls[4..]);
    assert Run(d4, calls[4..]) == Run(Apply(d4, calls[4]), []);
  }

  function Narrowed(): Screen {
    ChangeSize(SetClip(Resize(NewScreen(20, 10), 20, 10), true), 10, 10)
  }

  lemma NarrowedFrame()
    ensures var d := Narrowed();
            d.viewport == Viewport(0, 0, 10, 10) && d.clip && d.fbWidth == 20 && d.fbHeight == 10
  {
    hide Submit, ChangePos, ChangeSize, Blank, Resized;
    var d0 := WithNewSize(NewScreen(20, 10), 20, 10);
    ChangeSizeFrame(d0, 20, 10);
    ChangePosFrame(ChangeSize(d0, 20, 10), 0, 0);
    var d1 := Resize(NewScreen(20, 10), 20, 10);
    assert d1.viewport == Viewport(0, 0, 20, 10) && !d1.clip;
    NarrowedClip(d1);
    var d2 := SetClip(d1, true);
    hide SetClip, Resize;
    var vp := Viewport(0, 0, 10, 10);
    ChangeSizeFrame(d2, 10, 10);
    ChangePosFrame(d2.(viewport := vp, target := Blank(10, 10)), 0, 0);
  }

  lemma NarrowedClip(d: Screen)
    requires d.viewport == Viewport(0, 0, 20, 10) && d.fbWidth == 20 && d.fbHeight == 10
    ensures var e := SetClip(d, true);
            e.viewport == Viewport(0, 0, 20, 10) && e.clip && e.fbWidth == 20 && e.fbHeight == 10
  {
    hide ChangePos, ChangeSize;
    var d1 := d.(clip := true);
    ChangeSizeFrame(d1, 20, 10);
    ChangePosFrame(ChangeSize(d1, 20, 10), 0, 0);
  }

  lemma HalfFilledPicture(c: Color)
    ensures var d := HalfFilled(c);
            && RunInv(d) && d.renderQ == []
            && (0, 0) in d.back && d.back[(0, 0)] == Opaque(c)
            && (10, 0) in d.back && d.back[(10, 0)].Transparent?
  {
    var d := NewScreen(20, 10);
    NewScreenAgrees(20, 10);
    assert RunInv(d);
    hide RunInv, Run, NewScreen, Drawn, Resized, Blank;
    var calls := HalfFilling(c);
    RunKeeps(d, calls);
    NoImagesAsImmediate(d, calls);
    HalfFillingAsks(c);
    var one, two := Size(20, 10), Paint(FillAct(0, 0, 10, 10, c));
    assert [one, two][1..] == [two] && [two][1..] == [] && [two][0] == two;
    var sized := Resized(d.back, 20, 10);
    assert Painted(d.back, [one, two]) == Painted(sized, [two]) == Drawn(sized, FillAct(0, 0, 10, 10, c));
    HalfPixels(d.back, c) by { assert d.back == Blank(300, 150) by { StartsBlank(); } }
  }

  lemma StartsBlank()
    ensures NewScreen(20, 10).back == Blank(300, 150)
  {
  }

  lemma HalfFillingAsks(c: Color)
    ensures AllAsks(HalfFilling(c)) == [Size(20, 10), Paint(FillAct(0, 0, 10, 10, c))]
  {
    var calls := HalfFilling(c);
    assert calls[1..][1..] == calls[2..] && calls[2..][1..] == calls[3..] && calls[3..][1..] == calls[4..] && calls[4..][1..] == [];
    assert AllAsks(calls[4..]) == [];
    assert AllAsks(calls[3..]) == [Paint(FillAct(0, 0, 10, 10, c))];
    assert AllAsks(calls[2..]) == AllAsks(calls[3..]);
    assert AllAsks(calls[1..]) == AllAsks(calls[2..]);
  }

  lemma HalfPixels(back: Image, c: Color)
    requires back == Blank(300, 150)
    ensures var img := Drawn(Resized(back, 20, 10), FillAct(0, 0, 10, 10, c));
            && (0, 0) in img && img[(0, 0)] == Opaque(c)
            && (10, 0) in img && img[(10, 0)].Transparent?
  {
    var sized := Resized(back, 20, 10);
    assert InBox((0, 0), 0, 0, 20, 10) && InBox((10, 0), 0, 0, 20, 10) && InBox((10, 0), 0, 0, 300, 150);
    assert (0, 0) in sized && (10, 0) in sized && sized[(10, 0)].Transparent?;
    hide Resized, Blank, HasSize;
    HalfPainted(sized, c);
  }

  lemma HalfPainted(back: Image, c: Color)
    requires (0, 0) in back && (10, 0) in back
    ensures var img := Drawn(back, FillAct(0, 0, 10, 10, c)); img[(0, 0)] == Opaque(c) && img[(10, 0)] == back[(10, 0)]
  {
  }

  /** The run that leaves a stale picture: the left half is painted and shown, then the viewport moves to the
      right half, which nothing has painted; the left half stays on the visible canvas. */
  lemma {:induction false} StaleAfterMove(c: Color)
    ensures var e := Apply(HalfFilled(c), CallPos(10, 0));
            && DamageInv(e) && InViewport(e, (10, 0)) && Stale(e, (10, 0)) && e.damage == NO_DAMAGE
            && e.target[(0, 0)] == Opaque(c) && !MirrorsAll(e)
  {
    var d := HalfFilled(c);
    HalfFilledPicture(c);
    HalfFilledFrame(c);
    hide HalfFilled, DamageInv, ChangePos, Replays, HasSize;
    var e := ChangePos(d, 10, 0);
    ChangePosFrame(d, 10, 0);
    assert e.viewport == Viewport(10, 0, 10, 10);
    MoveKeepsStale(d, 10, 0, (10, 0));
    assert OnTarget(e, (10, 0)) == (0, 0);
    Parts(d);
    ChangePosInOrder(d, 10, 0);
    assert Stale(e, (10, 0)) && !Mirrors(e, (10, 0));
  }

  lemma {:induction false} NarrowedSound()
    ensures RunInv(Narrowed()) && Narrowed().renderQ == []
  {
    NarrowedRun();
    StartsSound20();
    hide RunInv, Run, NewScreen, Narrowed, AsAsked, Appends, AllFaithful, ResizesSpare;
    var calls := [CallResize(20, 10), CallClip(true), CallSize(10, 10)];
    RunKeeps(NewScreen(20, 10), calls);
    RunStaysEmpty(NewScreen(20, 10), calls);
  }

  lemma StartsSound20()
    ensures RunInv(NewScreen(20, 10)) && NewScreen(20, 10).renderQ == []
  {
    NewScreenAgrees(20, 10);
  }

  lemma NarrowedRun()
    ensures Run(NewScreen(20, 10), [CallResize(20, 10), CallClip(true), CallSize(10, 10)]) == Narrowed()
  {
    hide ChangeSize, SetClip, Resize, NewScreen;
    var calls := [CallResize(20, 10), CallClip(true), CallSize(10, 10)];
    var d := NewScreen(20, 10);
    assert calls[1..][1..] == calls[2..] && calls[2..][1..] == [];
    var d1 := Apply(d, calls[0]);
    var d2 := Apply(d1, calls[1]);
    assert Run(d, calls) == Run(d1, calls[1..]) == Run(d2, calls[2..]);
    assert Run(d2, calls[2..]) == Run(Apply(d2, calls[2]), []);
  }

  /** With nothing waiting a flip is carried out at once. */
  lemma FlipAtOnce(d: Screen, p: Point)
    requires DamageInv(d) && d.renderQ == [] && InViewport(d, p)
    ensures Shown(Submit(d, FlipAct), p)
  {
    hide Refreshed, Agrees;
    var d1 := d.(submitted := d.submitted + [FlipAct], drawn := d.drawn + [FlipAct]);
    SamePictureKeeps(d, d1);
    FlipShowsAll(d1);
    assert InViewport(d1, p);
    assert Submit(d, FlipAct) == DoFlip(d1);
  }

  lemma HalfFilledFrame(c: Color)
    ensures var d := HalfFilled(c);
            && d.viewport == Viewport(0, 0, 10, 10) && d.clip && d.fbWidth == 20 && d.fbHeight == 10
            && (0, 0) in d.target && d.target[(0, 0)] == Opaque(c)
  {
    HalfFilledRun(c);
    NarrowedFrame();
    NarrowedSound();
    HalfFilledPicture(c);
    hide HalfFilled, Narrowed, DamageInv, Replays, Drawn, Submit, AsAsked;
    var fill := FillAct(0, 0, 10, 10, c);
    var d1, d2 := Narrowed(), Submit(Narrowed(), fill);
    SubmitFrame(d1, fill);
    SubmitInOrder(d1, fill);
    SubmitStaysEmpty(d1, fill);
    SubmitFrame(d2, FlipAct);
    FlipAtOnce(d2, (0, 0));
    assert OnTarget(HalfFilled(c), (0, 0)) == (0, 0);
  }
}
