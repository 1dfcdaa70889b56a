/** The render queue moves: what its head waits for in every state of every run, and that nothing waits once
    every image has loaded. */
module DisplayProgress {
  import opened Canvas
  import opened Display
  import opened DisplayProofs
  import opened DisplayRuns

  // ----- what the head of the queue waits for -----

  predicate RightSize(a: Action) {
    a.ImgAct? ==> a.img.width == a.w && a.img.height == a.h
  }

  /** The queue is empty, or it waits at an image: for its load event, for which it listens, or for good,
      because the image has loaded with the wrong size. */
  predicate HeadWaits(d: Screen) {
    d.renderQ == [] ||
    var a := d.renderQ[0];
    && a.ImgAct?
    && if a.img.id in d.loaded then !RightSize(a) else a.img.id in d.listening
  }

  /** The queue and what is known of its images are the same. */
  predicate SameQueue(d: Screen, e: Screen) {
    e.renderQ == d.renderQ && e.loaded == d.loaded && e.listening == d.listening
  }

  lemma {:induction false} ExecuteSameQueue(d: Screen, a: Action)
    ensures SameQueue(d, Execute(d, a))
  {
    hide Drawn, Refreshed;
  }

  /** A scan rests only where it has to. */
  lemma {:induction false} ScanRests(d: Screen)
    ensures HeadWaits(ScanRenderQ(d))
    decreases |d.renderQ|
  {
    hide Execute;
    if d.renderQ != [] {
      ExecuteSameQueue(d, d.renderQ[0]);
      ScanRests(Execute(d, d.renderQ[0]).(renderQ := d.renderQ[1..]));
    }
  }

  lemma {:induction false} PushWaits(d: Screen, a: Action)
    requires HeadWaits(d)
    ensures HeadWaits(Push(d, a))
  {
    hide ScanRenderQ;
    ScanRests(d.(renderQ := d.renderQ + [a]));
  }

  lemma {:induction false} SubmitWaits(d: Screen, a: Action)
    requires HeadWaits(d)
    ensures HeadWaits(Submit(d, a))
  {
    hide Push, Execute;
    var d1 := d.(submitted := d.submitted + [a]);
    PushWaits(d1, a);
    ExecuteSameQueue(d1, a);
  }

  lemma {:induction false} BlitWaits(d: Screen, x: int, y: int, w: nat, h: nat, buffer: seq<Pixel>, start: nat)
    requires HeadWaits(d)
    ensures HeadWaits(Blit(d, x, y, w, h, buffer, start))
  {
    hide Push, Execute;
    if !BlitThrows(d, w, h, buffer, start) {
      var asked := BlitAct(x, y, w, h, Slice(buffer, start, w * h));
      var d1 := d.(submitted := d.submitted + [asked]);
      ExecuteSameQueue(d1, asked);
      if d.renderQ != [] {
        PushWaits(d1, BlitAct(x, y, w, h, buffer[..w * h]));
      }
    }
  }

  lemma {:induction false} PictureWaits(d: Screen, img: Picture, x: int, y: int, w: nat, h: nat)
    requires HeadWaits(d)
    ensures HeadWaits(DrawPicture(d, img, x, y, w, h))
  {
    hide Push;
    PushWaits(d.(submitted := d.submitted + [ImgAct(img, x, y, w, h)]), ImgAct(img, x, y, w, h));
  }

  lemma {:induction false} LoadedWaits(d: Screen, id: nat)
    requires HeadWaits(d)
    ensures HeadWaits(ImageLoaded(d, id))
  {
    hide ScanRenderQ;
    ScanRests(d.(loaded := d.loaded + {id}, listening := d.listening - {id}));
  }

  lemma {:induction false} ChangePosWaits(d: Screen, deltaX: int, deltaY: int)
    requires HeadWaits(d)
    ensures HeadWaits(ChangePos(d, deltaX, deltaY))
  {
    hide Submit, ClampX, ClampY;
    var vp := d.viewport.(x := d.viewport.x + ClampX(d, deltaX), y := d.viewport.y + ClampY(d, deltaY));
    SubmitWaits(Damage(d.(viewport := vp), vp.x, vp.y, vp.w, vp.h), FlipAct);
  }

  lemma {:induction false} ChangeSizeWaits(d: Screen, width: nat, height: nat)
    requires HeadWaits(d)
    ensures HeadWaits(ChangeSize(d, width, height))
  {
    hide Submit, ChangePos;
    var w := if d.clip then Least(width, d.fbWidth) else d.fbWidth;
    var h := if d.clip then Least(height, d.fbHeight) else d.fbHeight;
    var d0 := d.(viewport := d.viewport.(w := w, h := h), target := Blank(w, h));
    ChangePosWaits(d0, 0, 0);
    var d1 := ChangePos(d0, 0, 0);
    SubmitWaits(Damage(d1, d1.viewport.x, d1.viewport.y, d1.viewport.w, d1.viewport.h), FlipAct);
  }

  lemma {:induction false} AdjustWaits(d: Screen)
    requires HeadWaits(d)
    ensures HeadWaits(ChangePos(ChangeSize(d, d.viewport.w, d.viewport.h), 0, 0))
  {
    hide ChangePos, ChangeSize;
    ChangeSizeWaits(d, d.viewport.w, d.viewport.h);
    ChangePosWaits(ChangeSize(d, d.viewport.w, d.viewport.h), 0, 0);
  }

  lemma {:induction false} ApplyWaits(d: Screen, call: Call)
    requires HeadWaits(d)
    ensures HeadWaits(Apply(d, call))
  {
    hide Submit, Blit, DrawPicture, ImageLoaded, ChangePos, ChangeSize, Resized;
    match call
    case CallFlip => SubmitWaits(d, FlipAct);
    case CallFill(x, y, w, h, color) => SubmitWaits(d, FillAct(x, y, w, h, color));
    case CallCopy(oldX, oldY, x, y, w, h) => SubmitWaits(d, CopyAct(oldX, oldY, x, y, w, h));
    case CallBlit(x, y, w, h, buffer, start) => BlitWaits(d, x, y, w, h, buffer, start);
    case CallPicture(img, x, y, w, h) => PictureWaits(d, img, x, y, w, h);
    case CallLoaded(id) => LoadedWaits(d, id);
    case CallFlush =>
    case CallPos(dx, dy) => ChangePosWaits(d, dx, dy);
    case CallSize(w, h) => ChangeSizeWaits(d, w, h);
    case CallClip(on) => AdjustWaits(d.(clip := on));
    case CallResize(w, h) => AdjustWaits(WithNewSize(d, w, h));
  }

  /** In every state of every run of a new display the queue waits only where it has to. */
  lemma {:induction false} RunWaits(d: Screen, calls: seq<Call>)
    requires HeadWaits(d)
    ensures HeadWaits(Run(d, calls))
    decreases |calls|
  {
    hide Apply, HeadWaits;
    if calls != [] {
      ApplyWaits(d, calls[0]);
      RunWaits(Apply(d, calls[0]), calls[1..]);
    }
  }

  // ----- no image is drawn too early, or with the wrong size -----

  predicate Drawable(d: Screen, a: Action) {
    a.ImgAct? ==> a.img.id in d.loaded && RightSize(a)
  }

  /** Every image drawn so far had loaded by then, with its right size. */
  predicate OnlyLoadedDrawn(d: Screen) {
    forall k :: 0 <= k < |d.drawn| ==> Drawable(d, d.drawn[k])
  }

  /** From d to e more was drawn, all of it drawable, and no image was forgotten. */
  ghost predicate DrawsDrawable(d: Screen, e: Screen) {
    && d.loaded <= e.loaded && d.drawn <= e.drawn
    && forall k :: |d.drawn| <= k < |e.drawn| ==> Drawable(e, e.drawn[k])
  }

  lemma {:induction false} ExecuteDrawsOne(d: Screen, a: Action)
    ensures Execute(d, a).drawn == d.drawn + [a] && Execute(d, a).loaded == d.loaded && Execute(d, a).submitted == d.submitted
  {
    hide Drawn, Refreshed;
  }

  lemma {:induction false} ScanDrawsDrawable(d: Screen)
    ensures DrawsDrawable(d, ScanRenderQ(d)) && ScanRenderQ(d).loaded == d.loaded
    decreases |d.renderQ|
  {
    hide Execute;
    if d.renderQ != [] {
      ExecuteDrawsOne(d, d.renderQ[0]);
      ScanDrawsDrawable(Execute(d, d.renderQ[0]).(renderQ := d.renderQ[1..]));
    }
  }

  lemma {:induction false} PushDrawsDrawable(d: Screen, a: Action)
    ensures DrawsDrawable(d, Push(d, a)) && Push(d, a).loaded == d.loaded
  {
    hide ScanRenderQ;
    ScanDrawsDrawable(d.(renderQ := d.renderQ + [a]));
  }

  lemma {:induction false} SubmitDrawsDrawable(d: Screen, a: Action)
    requires !a.ImgAct?
    ensures DrawsDrawable(d, Submit(d, a)) && Submit(d, a).loaded == d.loaded
  {
    hide Push, Execute;
    var d1 := d.(submitted := d.submitted + [a]);
    PushDrawsDrawable(d1, a);
    ExecuteDrawsOne(d1, a);
  }

  lemma {:induction false} BlitDrawsDrawable(d: Screen, x: int, y: int, w: nat, h: nat, buffer: seq<Pixel>, start: nat)
    ensures DrawsDrawable(d, Blit(d, x, y, w, h, buffer, start))
  {
    hide Push, Execute;
    if !BlitThrows(d, w, h, buffer, start) {
      var asked := BlitAct(x, y, w, h, Slice(buffer, start, w * h));
      var d1 := d.(submitted := d.submitted + [asked]);
      ExecuteDrawsOne(d1, asked);
      if d.renderQ != [] {
        PushDrawsDrawable(d1, BlitAct(x, y, w, h, buffer[..w * h]));
      }
    }
  }

  lemma {:induction false} ChangePosDrawsDrawable(d: Screen, deltaX: int, deltaY: int)
    ensures DrawsDrawable(d, ChangePos(d, deltaX, deltaY)) && ChangePos(d, deltaX, deltaY).loaded == d.loaded
  {
    hide Submit, ClampX, ClampY;
    var vp := d.viewport.(x := d.viewport.x + ClampX(d, deltaX), y := d.viewport.y + ClampY(d, deltaY));
    SubmitDrawsDrawable(Damage(d.(viewport := vp), vp.x, vp.y, vp.w, vp.h), FlipAct);
  }

  lemma {:induction false} ChangeSizeDrawsDrawable(d: Screen, width: nat, height: nat)
    ensures DrawsDrawable(d, ChangeSize(d, width, height)) && ChangeSize(d, width, height).loaded == d.loaded
  {
    hide Submit, ChangePos;
    var w := if d.clip then Least(width, d.fbWidth) else d.fbWidth;
    var h := if d.clip then Least(height, d.fbHeight) else d.fbHeight;
    var d0 := d.(viewport := d.viewport.(w := w, h := h), target := Blank(w, h));
    ChangePosDrawsDrawable(d0, 0, 0);
    var d1 := ChangePos(d0, 0, 0);
    SubmitDrawsDrawable(Damage(d1, d1.viewport.x, d1.viewport.y, d1.viewport.w, d1.viewport.h), FlipAct);
  }

  lemma {:induction false} AdjustDrawsDrawable(d: Screen)
    ensures DrawsDrawable(d, ChangePos(ChangeSize(d, d.viewport.w, d.viewport.h), 0, 0))
  {
    hide ChangePos, ChangeSize;
    ChangeSizeDrawsDrawable(d, d.viewport.w, d.viewport.h);
    ChangePosDrawsDrawable(ChangeSize(d, d.viewport.w, d.viewport.h), 0, 0);
  }

  lemma {:induction false} ApplyDrawsDrawable(d: Screen, call: Call)
    ensures DrawsDrawable(d, Apply(d, call))
    ensures Apply(d, call).loaded == d.loaded + if call.CallLoaded? then {call.id} else {}
  {
    hide Submit, Push, Execute, Blit, ScanRenderQ, ChangePos, ChangeSize, Resized, Drawable;
    match call
    case CallFlip => SubmitDrawsDrawable(d, FlipAct);
    case CallFill(x, y, w, h, color) => SubmitDrawsDrawable(d, FillAct(x, y, w, h, color));
    case CallCopy(oldX, oldY, x, y, w, h) => SubmitDrawsDrawable(d, CopyAct(oldX, oldY, x, y, w, h));
    case CallBlit(x, y, w, h, buffer, start) =>
      BlitDrawsDrawable(d, x, y, w, h, buffer, start);
      BlitFrame(d, x, y, w, h, buffer, start);
    case CallPicture(img, x, y, w, h) =>
      PushDrawsDrawable(d.(submitted := d.submitted + [ImgAct(img, x, y, w, h)]), ImgAct(img, x, y, w, h));
    case CallLoaded(id) => ScanDrawsDrawable(d.(loaded := d.loaded + {id}, listening := d.listening - {id}));
    case CallFlush =>
    case CallPos(dx, dy) => ChangePosDrawsDrawable(d, dx, dy);
    case CallSize(w, h) => ChangeSizeDrawsDrawable(d, w, h);
    case CallClip(on) =>
      AdjustDrawsDrawable(d.(clip := on));
      AdjustLoadsNone(d.(clip := on));
    case CallResize(w, h) =>
      AdjustDrawsDrawable(WithNewSize(d, w, h));
      AdjustLoadsNone(WithNewSize(d, w, h));
  }

  lemma {:induction false} AdjustLoadsNone(d: Screen)
    ensures ChangePos(ChangeSize(d, d.viewport.w, d.viewport.h), 0, 0).loaded == d.loaded
  {
    hide ChangePos, ChangeSize;
    ChangeSizeDrawsDrawable(d, d.viewport.w, d.viewport.h);
    ChangePosDrawsDrawable(ChangeSize(d, d.viewport.w, d.viewport.h), 0, 0);
  }

  /** In every state of every run, whatever was drawn of an image was drawn after it had loaded with its right size. */
  lemma {:induction false} RunDrawsDrawable(d: Screen, calls: seq<Call>)
    requires OnlyLoadedDrawn(d)
    ensures OnlyLoadedDrawn(Run(d, calls))
    decreases |calls|
  {
    hide Apply;
    if calls != [] {
      ApplyDrawsDrawable(d, calls[0]);
      RunDrawsDrawable(Apply(d, calls[0]), calls[1..]);
    }
  }

  // ----- flushes are answered -----

  /** Flushes answered, and the one that is outstanding. */
  function Flushes(d: Screen): nat {
    d.flushes + if d.flushing then 1 else 0
  }

  lemma {:induction false} ExecuteFlushes(d: Screen, a: Action)
    ensures Execute(d, a).flushes == d.flushes && Execute(d, a).flushing == d.flushing
  {
    hide Drawn, Refreshed;
  }

  lemma {:induction false} ScanFlushes(d: Screen)
    ensures Flushes(ScanRenderQ(d)) == Flushes(d)
    decreases |d.renderQ|
  {
    hide Execute;
    if d.renderQ != [] {
      ExecuteFlushes(d, d.renderQ[0]);
      ScanFlushes(Execute(d, d.renderQ[0]).(renderQ := d.renderQ[1..]));
    }
  }

  lemma {:induction false} PushFlushes(d: Screen, a: Action)
    ensures Flushes(Push(d, a)) == Flushes(d)
  {
    hide ScanRenderQ;
    ScanFlushes(d.(renderQ := d.renderQ + [a]));
  }

  lemma {:induction false} SubmitFlushes(d: Screen, a: Action)
    ensures Flushes(Submit(d, a)) == Flushes(d)
  {
    hide Push, Execute;
    var d1 := d.(submitted := d.submitted + [a]);
    PushFlushes(d1, a);
    ExecuteFlushes(d1, a);
  }

  lemma {:induction false} ChangePosFlushes(d: Screen, deltaX: int, deltaY: int)
    ensures Flushes(ChangePos(d, deltaX, deltaY)) == Flushes(d)
  {
    hide Submit, ClampX, ClampY;
    var vp := d.viewport.(x := d.viewport.x + ClampX(d, deltaX), y := d.viewport.y + ClampY(d, deltaY));
    SubmitFlushes(Damage(d.(viewport := vp), vp.x, vp.y, vp.w, vp.h), FlipAct);
  }

  lemma {:induction false} ChangeSizeFlushes(d: Screen, width: nat, height: nat)
    ensures Flushes(ChangeSize(d, width, height)) == Flushes(d)
  {
    hide Submit, ChangePos;
    var w := if d.clip then Least(width, d.fbWidth) else d.fbWidth;
    var h := if d.clip then Least(height, d.fbHeight) else d.fbHeight;
    var d0 := d.(viewport := d.viewport.(w := w, h := h), target := Blank(w, h));
    ChangePosFlushes(d0, 0, 0);
    var d1 := ChangePos(d0, 0, 0);
    SubmitFlushes(Damage(d1, d1.viewport.x, d1.viewport.y, d1.viewport.w, d1.viewport.h), FlipAct);
  }

  lemma {:induction false} AdjustFlushes(d: Screen)
    ensures Flushes(ChangePos(ChangeSize(d, d.viewport.w, d.viewport.h), 0, 0)) == Flushes(d)
  {
    hide ChangePos, ChangeSize;
    ChangeSizeFlushes(d, d.viewport.w, d.viewport.h);
    ChangePosFlushes(ChangeSize(d, d.viewport.w, d.viewport.h), 0, 0);
  }

  /** A call that asks for a flush while none is outstanding. */
  predicate AsksFlush(d: Screen, call: Call) {
    call.CallFlush? && !d.flushing
  }

  lemma {:induction false} ApplyFlushes(d: Screen, call: Call)
    requires FlushInv(d)
    ensures Flushes(Apply(d, call)) == Flushes(d) + if AsksFlush(d, call) then 1 else 0
  {
    hide Submit, Push, Execute, ScanRenderQ, ChangePos, ChangeSize, Resized;
    match call
    case CallFlip => SubmitFlushes(d, FlipAct);
    case CallFill(x, y, w, h, color) => SubmitFlushes(d, FillAct(x, y, w, h, color));
    case CallCopy(oldX, oldY, x, y, w, h) => SubmitFlushes(d, CopyAct(oldX, oldY, x, y, w, h));
    case CallBlit(x, y, w, h, buffer, start) => BlitFlushes(d, x, y, w, h, buffer, start);
    case CallPicture(img, x, y, w, h) =>
      PushFlushes(d.(submitted := d.submitted + [ImgAct(img, x, y, w, h)]), ImgAct(img, x, y, w, h));
    case CallLoaded(id) => ScanFlushes(d.(loaded := d.loaded + {id}, listening := d.listening - {id}));
    case CallFlush =>
    case CallPos(dx, dy) => ChangePosFlushes(d, dx, dy);
    case CallSize(w, h) => ChangeSizeFlushes(d, w, h);
    case CallClip(on) => AdjustFlushes(d.(clip := on));
    case CallResize(w, h) => AdjustFlushes(WithNewSize(d, w, h));
  }

  lemma {:induction false} BlitFlushes(d: Screen, x: int, y: int, w: nat, h: nat, buffer: seq<Pixel>, start: nat)
    ensures Flushes(Blit(d, x, y, w, h, buffer, start)) == Flushes(d)
  {
    hide Push, Execute;
    if !BlitThrows(d, w, h, buffer, start) {
      var asked := BlitAct(x, y, w, h, Slice(buffer, start, w * h));
      var d1 := d.(submitted := d.submitted + [asked]);
      ExecuteFlushes(d1, asked);
      if d.renderQ != [] {
        PushFlushes(d1, BlitAct(x, y, w, h, buffer[..w * h]));
      }
    }
  }

  /** The flush requests of a run that find none outstanding. */
  function FlushesAsked(d: Screen, calls: seq<Call>): nat
    decreases |calls|
  {
    if calls == [] then 0
    else (if AsksFlush(d, calls[0]) then 1 else 0) + FlushesAsked(Apply(d, calls[0]), calls[1..])
  }

  /** Every request that finds no flush outstanding is answered by one onflush of its own, or is the one
      still outstanding. */
  lemma {:induction false} RunFlushes(d: Screen, calls: seq<Call>)
    requires RunInv(d)
    ensures Flushes(Run(d, calls)) == Flushes(d) + FlushesAsked(d, calls)
    decreases |calls|
  {
    hide Apply, Flushes, AsksFlush, DamageInv, Replays, FlushInv, Appends, AsAsked;
    if calls != [] {
      ApplyFlushes(d, calls[0]);
      ApplyKeeps(d, calls[0]);
      RunFlushes(Apply(d, calls[0]), calls[1..]);
    }
  }

  // ----- progress -----

  /** Every image in the queue has loaded, with the size it was announced with. */
  predicate AllLoaded(d: Screen) {
    forall k :: 0 <= k < |d.renderQ| && d.renderQ[k].ImgAct? ==> d.renderQ[k].img.id in d.loaded && RightSize(d.renderQ[k])
  }

  /** Nothing is stuck: in every run of a new display, once every queued image has loaded with its right
      size, the queue is empty, as many actions have been drawn as were asked for, and the same ones in the
      same order if its blits find their pixels; and every flush is answered. */
  lemma {:induction false} LoadedMeansDrained(width: nat, height: nat, calls: seq<Call>)
    requires AllLoaded(Run(NewScreen(width, height), calls))
    ensures var d := NewScreen(width, height); var e := Run(d, calls);
            && e.renderQ == [] && |e.drawn| == |e.submitted|
            && (e.drawn == e.submitted <==> AllFaithful(d, calls))
            && !e.flushing && e.flushes == FlushesAsked(d, calls)
  {
    var d := NewScreen(width, height);
    NewScreenAgrees(width, height);
    assert RunInv(d);
    assert HeadWaits(d) && Flushes(d) == 0 && All(d) == [] && d.submitted == [];
    hide Run, NewScreen, DamageInv, Replays, AllFaithful;
    RunWaits(d, calls);
    RunFlushes(d, calls);
    RunKeeps(d, calls);
    InOrderFromTheStart(width, height, calls);
    var e := Run(d, calls);
    assert e.renderQ == [];
    assert e.drawn + [] == e.drawn;
  }
}
