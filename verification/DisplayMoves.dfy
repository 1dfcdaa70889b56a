/** A viewport that moves or changes its size is shown anew. */
module DisplayMoves {
  import opened Canvas
  import opened Display
  import opened DisplayProofs
  import opened DisplayRuns
  import opened DisplayViewport
  import opened DisplayFlips

  /** Nothing waits, nothing is damaged, and every painted pixel of the viewport is visible. */
  ghost predicate UpToDate(d: Screen) {
    d.renderQ == [] && d.damage == NO_DAMAGE && forall p: Point :: InViewport(d, p) ==> Shown(d, p)
  }

  /** The last thing asked for is a flip, and it was not asked for before. */
  ghost predicate FlipAdded(d: Screen, e: Screen) {
    |All(e)| > |All(d)| && All(e)[|All(e)| - 1] == FlipAct
  }

  lemma {:induction false} OwnFlipShows(d: Screen)
    requires Sizes(d) && Replays(d) && FlushInv(d)
    ensures var e := OwnFlip(Damage(d, d.viewport.x, d.viewport.y, d.viewport.w, d.viewport.h));
            && Sizes(e) && Replays(e) && FlushInv(e) && FlipAdded(d, e) && e.viewport == d.viewport
            && (d.renderQ == [] ==> UpToDate(e))
  {
    var d1 := Damage(d, d.viewport.x, d.viewport.y, d.viewport.w, d.viewport.h);
    RefreshInOrder(d);
    DamagedViewportAgrees(d);
    hide Submit, DamageInv, Replays, Shown;
    FlipKeepsViewport(d1);
    if d.renderQ == [] {
      forall p: Point | InViewport(d1, p)
        ensures Shown(Submit(d1, FlipAct), p)
      {
        FlipAtOnce(d1, p);
      }
    }
    assert Sizes(OwnFlip(d1)) && Replays(OwnFlip(d1)) by { RunInvParts(OwnFlip(d1)); }
  }

  lemma {:induction false} RunInvParts(d: Screen)
    requires RunInv(d)
    ensures Sizes(d) && Replays(d) && FlushInv(d)
  {
  }

  lemma {:induction false} FlipKeepsViewport(d: Screen)
    ensures Submit(d, FlipAct).viewport == d.viewport
    ensures d.renderQ == [] ==> Submit(d, FlipAct).renderQ == [] && Submit(d, FlipAct).damage == NO_DAMAGE
  {
    SubmitFrame(d, FlipAct);
    hide Refreshed, ScanRenderQ;
  }

  ghost predicate Sound(d: Screen) {
    Sizes(d) && Replays(d) && FlushInv(d)
  }

  /** Either nothing happened at all, or what happened ends with a flip of its own, which shows the viewport unless
      something waits. */
  ghost predicate ShownIfChanged(d: Screen, e: Screen) {
    Sound(e) && (e == d || (FlipAdded(d, e) && (d.renderQ == [] ==> UpToDate(e))))
  }

  lemma {:induction false} MoveShows(d: Screen, deltaX: int, deltaY: int)
    requires Sound(d)
    ensures ShownIfChanged(d, ChangePos(d, deltaX, deltaY))
  {
    hide OwnFlip, ClampX, ClampY, DrawnAll, HasSize, UpToDate;
    var dx, dy := ClampX(d, deltaX), ClampY(d, deltaY);
    if dx != 0 || dy != 0 {
      var d1 := d.(viewport := d.viewport.(x := d.viewport.x + dx, y := d.viewport.y + dy));
      assert Replays(d1) && Sizes(d1) && All(d1) == All(d);
      OwnFlipShows(d1);
    }
  }

  lemma {:induction false} BothShow(d: Screen, e: Screen, f: Screen)
    requires ShownIfChanged(d, e) && ShownIfChanged(e, f)
    ensures ShownIfChanged(d, f)
  {
    hide Sound, Shown;
  }

  lemma {:induction false} SizeShows(d: Screen, width: nat, height: nat)
    requires Sound(d)
    ensures var e := ChangeSize(d, width, height); ShownIfChanged(d, e) && (Sized(d, width, height) != d.viewport ==> FlipAdded(d, e))
  {
    hide OwnFlip, ChangePos, DrawnAll, HasSize, UpToDate;
    var vp := Sized(d, width, height);
    if vp != d.viewport {
      var d0 := d.(viewport := vp, target := Blank(vp.w, vp.h));
      assert Sound(d0) && All(d0) == All(d);
      MoveShows(d0, 0, 0);
      var d1 := ChangePos(d0, 0, 0);
      OwnFlipShows(d1);
      assert UpToDate(d1) ==> d1.renderQ == [] by { NothingWaits(d1); }
    }
  }

  lemma {:induction false} NothingWaits(d: Screen)
    ensures UpToDate(d) ==> d.renderQ == []
  {
    hide Shown;
  }

  lemma {:induction false} AdjustShows(d: Screen)
    requires Sound(d)
    ensures ShownIfChanged(d, ChangePos(ChangeSize(d, d.viewport.w, d.viewport.h), 0, 0))
  {
    hide ChangePos, ChangeSize, ShownIfChanged, Sound;
    var e := ChangeSize(d, d.viewport.w, d.viewport.h);
    SizeShows(d, d.viewport.w, d.viewport.h);
    assert Sound(e) by { SoundAfter(d, e); }
    MoveShows(e, 0, 0);
    BothShow(d, e, ChangePos(e, 0, 0));
  }

  lemma {:induction false} SoundAfter(d: Screen, e: Screen)
    requires ShownIfChanged(d, e)
    ensures Sound(e)
  {
  }

  predicate ChangesViewport(call: Call) {
    call.CallPos? || call.CallSize? || call.CallClip? || call.CallResize?
  }

  /** A call that changes the viewport ends with a flip; and when nothing waits the new viewport is visible at once,
      with no damage left. */
  lemma {:induction false} NewViewportIsShown(d: Screen, call: Call)
    requires RunInv(d) && ChangesViewport(call) && Apply(d, call).viewport != d.viewport
    ensures var e := Apply(d, call); FlipAdded(d, e) && (d.renderQ == [] ==> UpToDate(e))
  {
    RunInvParts(d);
    hide ChangePos, ChangeSize, Resized, UpToDate, Sizes, DamageInv, DrawnAll;
    match call
    case CallPos(dx, dy) => MoveShows(d, dx, dy);
    case CallSize(w, h) => SizeShows(d, w, h);
    case CallClip(on) =>
      assert Sound(d.(clip := on)) by { ClipSound(d, on); }
      AdjustShows(d.(clip := on));
    case CallResize(w, h) =>
      WithNewSizeKeeps(d, w, h);
      RunInvParts(WithNewSize(d, w, h));
      AdjustShows(WithNewSize(d, w, h));
  }

  lemma {:induction false} ClipSound(d: Screen, on: bool)
    requires Sound(d)
    ensures Sound(d.(clip := on))
  {
  }
}
