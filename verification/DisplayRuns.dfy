/** Runs of the display: any sequence of drawing, viewport, size, image and flush events. */
module DisplayRuns {
  import opened Canvas
  import opened Display
  import opened DisplayProofs
  import opened DisplayViewport

  // ----- the ledger: what was asked for, and what has been or will be drawn -----

  /** What has been drawn, followed by what waits. */
  function All(d: Screen): seq<Action> {
    d.drawn + d.renderQ
  }

  /** Everything asked for has been drawn or waits, in the order it was asked for. */
  predicate InOrder(d: Screen) {
    All(d) == d.submitted
  }

  /** From d to e as many actions were asked for as were added, and nothing was taken back. */
  ghost predicate Appends(d: Screen, e: Screen) {
    && d.submitted <= e.submitted && All(d) <= All(e)
    && |e.submitted| - |d.submitted| == |All(e)| - |All(d)|
  }

  /** What was added from d to e is what was asked for in between. */
  ghost predicate AsAsked(d: Screen, e: Screen) {
    Appends(d, e) && All(e)[|All(d)|..] == e.submitted[|d.submitted|..]
  }

  lemma AppendsOn(d: Screen, e: Screen, f: Screen)
    requires Appends(d, e) && Appends(e, f)
    ensures Appends(d, f) && (AsAsked(d, f) <==> AsAsked(d, e) && AsAsked(e, f))
  {
    var m, n := |All(e)| - |All(d)|, |All(d)|;
    var drawn, asked := All(f)[n..], f.submitted[|d.submitted|..];
    assert All(f)[..|All(e)|] == All(e) && f.submitted[..|e.submitted|] == e.submitted;
    assert drawn[..m] == All(e)[n..] && drawn[m..] == All(f)[|All(e)|..];
    assert asked[..m] == e.submitted[|d.submitted|..] && asked[m..] == f.submitted[|e.submitted|..];
    assert drawn == drawn[..m] + drawn[m..] && asked == asked[..m] + asked[m..];
  }

  lemma OneAdded(d: Screen, e: Screen, added: seq<Action>, asked: seq<Action>)
    requires All(e) == All(d) + added && e.submitted == d.submitted + asked && |added| == |asked|
    ensures Appends(d, e) && (AsAsked(d, e) <==> added == asked)
  {
  }

  /** If d was in order, e is in order exactly when what was added is what was asked for. */
  lemma InOrderIff(d: Screen, e: Screen)
    requires Appends(d, e) && InOrder(d)
    ensures InOrder(e) <==> AsAsked(d, e)
  {
    assert All(e) == All(d) + All(e)[|All(d)|..];
    assert e.submitted == d.submitted + e.submitted[|d.submitted|..];
  }

  // ----- the backbuffer is what drawing makes of it -----

  function DrawnAll(back: Image, actions: seq<Action>): Image {
    if actions == [] then back else Drawn(DrawnAll(back, actions[..|actions| - 1]), actions[|actions| - 1])
  }

  /** The backbuffer is what drawing one action after the other makes of it. */
  ghost predicate Replays(d: Screen) {
    d.baseMark <= |d.drawn| && d.back == DrawnAll(d.base, d.drawn[d.baseMark..])
  }

  /** A flush is outstanding only while something is queued. */
  predicate FlushInv(d: Screen) {
    d.flushing ==> d.renderQ != []
  }

  ghost predicate RunInv(d: Screen) {
    DamageInv(d) && Replays(d) && FlushInv(d)
  }

  /** Drawing leaves alone what the last resize left, and every size, and takes back nothing it drew. */
  ghost predicate SameBase(d: Screen, e: Screen) {
    && e.base == d.base && e.baseMark == d.baseMark && d.drawn <= e.drawn
    && e.backWidth == d.backWidth && e.backHeight == d.backHeight
  }

  lemma {:induction false} ExecuteDraws(d: Screen, a: Action)
    requires Replays(d)
    ensures Replays(Execute(d, a)) && SameBase(d, Execute(d, a)) && Execute(d, a).submitted == d.submitted
    ensures Execute(d, a).drawn == d.drawn + [a] && Execute(d, a).renderQ == d.renderQ
    ensures Execute(d, a).flushing == d.flushing && Execute(d, a).flushes == d.flushes
  {
    hide Drawn;
    var tail := (d.drawn + [a])[d.baseMark..];
    assert tail == d.drawn[d.baseMark..] + [a];
    assert tail[..|tail| - 1] == d.drawn[d.baseMark..];
  }

  /** A scan moves actions from the head of the queue to what has been drawn, and fires onflush at most
      once, with the queue empty. */
  lemma {:induction false} ScanDraws(d: Screen)
    requires Replays(d)
    ensures var e := ScanRenderQ(d);
            && Replays(e) && SameBase(d, e) && e.submitted == d.submitted && All(e) == All(d)
            && (e.flushes == d.flushes || (e.flushes == d.flushes + 1 && d.flushing && !e.flushing && e.renderQ == []))
            && FlushInv(e)
    decreases |d.renderQ|
  {
    hide Execute, DrawnAll;
    if d.renderQ != [] {
      var a := d.renderQ[0];
      if a.ImgAct? && (a.img.id !in d.loaded || a.img.width != a.w || a.img.height != a.h) {
      } else {
        ExecuteDraws(d, a);
        var d1 := Execute(d, a).(renderQ := d.renderQ[1..]);
        assert All(d1) == All(d);
        assert Replays(d1);
        ScanDraws(d1);
      }
    }
  }

  /** What a drawing call keeps, and when it may fire onflush. */
  ghost predicate Draws(d: Screen, e: Screen) {
    && RunInv(e) && SameBase(d, e) && Appends(d, e)
    && (e.flushes != d.flushes ==> e.renderQ == [])
  }

  /** A pushed action goes behind everything that waits. */
  lemma PushDraws(d: Screen, a: Action)
    requires RunInv(d)
    ensures var e := Push(d, a);
            && RunInv(e) && SameBase(d, e) && e.submitted == d.submitted && All(e) == All(d) + [a]
            && (e.flushes != d.flushes ==> e.renderQ == [])
            && (d.renderQ != [] ==> e == d.(renderQ := d.renderQ + [a]))
  {
    PushKeeps(d, a);
    hide ScanRenderQ, DrawnAll, DamageInv;
    var d1 := d.(renderQ := d.renderQ + [a]);
    assert All(d1) == All(d) + [a];
    assert Replays(d1);
    ScanDraws(d1);
  }

  lemma {:induction false} SubmitInOrder(d: Screen, a: Action)
    requires RunInv(d)
    ensures var e := Submit(d, a); Draws(d, e) && AsAsked(d, e) && e.flushes == d.flushes
    ensures All(Submit(d, a)) == All(d) + [a]
  {
    SubmitKeeps(d, a);
    hide DamageInv, Push, Execute, DrawnAll;
    var d1 := d.(submitted := d.submitted + [a]);
    SamePictureKeeps(d, d1);
    assert Replays(d1);
    if d.renderQ != [] {
      PushDraws(d1, a);
    } else {
      ExecuteDraws(d1, a);
      assert All(Execute(d1, a)) == All(d) + [a];
    }
    OneAdded(d, Submit(d, a), [a], [a]);
  }

  /** When a blit draws the pixels asked for: if nothing waits, if it throws, or if the start of the buffer,
      from which a queued blit reads, holds the same pixels as the place asked for. */
  predicate BlitFaithful(d: Screen, w: nat, h: nat, buffer: seq<Pixel>, start: nat) {
    d.renderQ == [] || w * h > |buffer| || buffer[..w * h] == Slice(buffer, start, w * h)
  }

  /** The pixels a blit reads: from its offset if nothing waits, and from the start of the buffer if something does. */
  function ReadFrom(d: Screen, start: nat): nat {
    if d.renderQ == [] then start else 0
  }

  /** The action a blit really adds: none if the pixels it reads leave the buffer. */
  function BlitAdds(d: Screen, x: int, y: int, w: nat, h: nat, buffer: seq<Pixel>, start: nat): seq<Action> {
    var from := ReadFrom(d, start);
    if from + w * h > |buffer| then [] else [BlitAct(x, y, w, h, buffer[from..from + w * h])]
  }

  /** The action a blit asks for. */
  function BlitAsks(d: Screen, x: int, y: int, w: nat, h: nat, buffer: seq<Pixel>, start: nat): seq<Action> {
    if ReadFrom(d, start) + w * h > |buffer| then [] else [BlitAct(x, y, w, h, Slice(buffer, start, w * h))]
  }

  /** How a blit comes about: not at all, behind what waits, or at once. */
  lemma {:induction false} BlitCases(d: Screen, x: int, y: int, w: nat, h: nat, buffer: seq<Pixel>, start: nat)
    ensures var added, asked := BlitAdds(d, x, y, w, h, buffer, start), BlitAsks(d, x, y, w, h, buffer, start);
            && |added| == |asked| <= 1
            && Blit(d, x, y, w, h, buffer, start) ==
               if added == [] then d
               else if d.renderQ != [] then Push(d.(submitted := d.submitted + asked), added[0])
               else Execute(d.(submitted := d.submitted + asked), added[0])
  {
    hide Push, Execute;
  }

  lemma {:induction false} BlitAdded(d: Screen, x: int, y: int, w: nat, h: nat, buffer: seq<Pixel>, start: nat)
    requires RunInv(d)
    ensures var e := Blit(d, x, y, w, h, buffer, start);
            && RunInv(e) && SameBase(d, e) && e.flushes == d.flushes
            && All(e) == All(d) + BlitAdds(d, x, y, w, h, buffer, start)
            && e.submitted == d.submitted + BlitAsks(d, x, y, w, h, buffer, start)
  {
    BlitKeeps(d, x, y, w, h, buffer, start);
    BlitCases(d, x, y, w, h, buffer, start);
    hide DamageInv, Push, Execute, DrawnAll, Replays, Blit, BlitAdds, BlitAsks;
    var added, asked := BlitAdds(d, x, y, w, h, buffer, start), BlitAsks(d, x, y, w, h, buffer, start);
    if added == [] {
      assert All(d) + [] == All(d) && d.submitted + [] == d.submitted;
    } else {
      assert asked == [asked[0]] && added == [added[0]];
      AskedOnly(d, asked[0]);
      var d1 := d.(submitted := d.submitted + asked);
      PushDraws(d1, added[0]);
      ExecuteReplays(d1, added[0]);
    }
  }

  lemma {:induction false} ExecuteReplays(d: Screen, a: Action)
    requires Replays(d)
    ensures var e := Execute(d, a);
            && Replays(e) && SameBase(d, e) && e.submitted == d.submitted && e.drawn == d.drawn + [a] && e.renderQ == d.renderQ
            && e.flushing == d.flushing && e.flushes == d.flushes && (d.renderQ == [] ==> All(e) == All(d) + [a])
  {
    hide Execute, DrawnAll;
    ExecuteDraws(d, a);
    assert d.renderQ == [] ==> All(d) == d.drawn && All(Execute(d, a)) == d.drawn + [a];
  }

  lemma BlitFaithfulIff(d: Screen, x: int, y: int, w: nat, h: nat, buffer: seq<Pixel>, start: nat)
    ensures |BlitAdds(d, x, y, w, h, buffer, start)| == |BlitAsks(d, x, y, w, h, buffer, start)|
    ensures BlitAdds(d, x, y, w, h, buffer, start) == BlitAsks(d, x, y, w, h, buffer, start) <==>
            BlitFaithful(d, w, h, buffer, start)
  {
    var added, asked := BlitAdds(d, x, y, w, h, buffer, start), BlitAsks(d, x, y, w, h, buffer, start);
    if added != [] {
      assert added == asked <==> added[0] == asked[0];
    }
  }

  /** A queued blit reads its pixels from the start of the buffer; it adds what was asked for exactly when
      nothing waits or the two places hold the same pixels. At offset zero it always does. */
  lemma {:induction false} BlitInOrder(d: Screen, x: int, y: int, w: nat, h: nat, buffer: seq<Pixel>, start: nat)
    requires RunInv(d)
    ensures var e := Blit(d, x, y, w, h, buffer, start);
            && Draws(d, e) && e.flushes == d.flushes
            && (AsAsked(d, e) <==> BlitFaithful(d, w, h, buffer, start))
            && (start == 0 ==> AsAsked(d, e))
  {
    hide RunInv, Blit, BlitAdds, BlitAsks, Appends, AsAsked, All;
    BlitAdded(d, x, y, w, h, buffer, start);
    BlitFaithfulIff(d, x, y, w, h, buffer, start);
    OneAdded(d, Blit(d, x, y, w, h, buffer, start), BlitAdds(d, x, y, w, h, buffer, start), BlitAsks(d, x, y, w, h, buffer, start));
  }

  lemma AskedOnly(d: Screen, a: Action)
    requires RunInv(d)
    ensures RunInv(d.(submitted := d.submitted + [a]))
  {
    hide DamageInv;
    SamePictureKeeps(d, d.(submitted := d.submitted + [a]));
  }

  lemma PictureInOrder(d: Screen, img: Picture, x: int, y: int, w: nat, h: nat)
    requires RunInv(d)
    ensures var e := DrawPicture(d, img, x, y, w, h);
            Draws(d, e) && AsAsked(d, e) && All(e) == All(d) + if w == 0 || h == 0 then [] else [ImgAct(img, x, y, w, h)]
  {
    hide DamageInv, Push, DrawnAll;
    if w == 0 || h == 0 {
      OneAdded(d, d, [], []);
    } else {
      var a := ImgAct(img, x, y, w, h);
      var d1 := d.(submitted := d.submitted + [a]);
      SamePictureKeeps(d, d1);
      assert Replays(d1);
      PushDraws(d1, a);
      OneAdded(d, Push(d1, a), [a], [a]);
    }
  }

  lemma LoadedInOrder(d: Screen, id: nat)
    requires RunInv(d)
    ensures var e := ImageLoaded(d, id); Draws(d, e) && AsAsked(d, e) && All(e) == All(d)
  {
    hide DamageInv, ScanRenderQ, DrawnAll;
    var d1 := d.(loaded := d.loaded + {id}, listening := d.listening - {id});
    SamePictureKeeps(d, d1);
    ScanKeeps(d1);
    assert Replays(d1);
    ScanDraws(d1);
    OneAdded(d, ImageLoaded(d, id), [], []);
  }

  lemma FlushInOrder(d: Screen)
    requires RunInv(d)
    ensures var e := RequestFlush(d); Draws(d, e) && AsAsked(d, e) && All(e) == All(d)
  {
    hide DamageInv, DrawnAll;
    SamePictureKeeps(d, RequestFlush(d));
    OneAdded(d, RequestFlush(d), [], []);
  }

  // ----- the viewport -----

  /** A flip the display asks for itself after damaging the whole viewport. */
  lemma RefreshInOrder(d: Screen)
    requires Sizes(d) && Replays(d) && FlushInv(d)
    ensures var e := OwnFlip(Damage(d, d.viewport.x, d.viewport.y, d.viewport.w, d.viewport.h));
            Draws(d, e) && AsAsked(d, e) && e.flushes == d.flushes && All(e) == All(d) + [FlipAct]
  {
    DamagedViewportAgrees(d);
    hide DamageInv, Submit, DrawnAll;
    var d1 := Damage(d, d.viewport.x, d.viewport.y, d.viewport.w, d.viewport.h);
    assert Replays(d1);
    SubmitInOrder(d1, FlipAct);
  }

  /** From d to e nothing but flips was added. */
  ghost predicate OnlyFlips(d: Screen, e: Screen) {
    All(d) <= All(e) && forall k :: |All(d)| <= k < |All(e)| ==> All(e)[k] == FlipAct
  }

  /** A move asks for nothing but its own flips. */
  ghost predicate Moves(d: Screen, e: Screen) {
    && Sizes(e) && Replays(e) && FlushInv(e) && SameBase(d, e) && AsAsked(d, e) && OnlyFlips(d, e)
    && e.flushes == d.flushes
  }

  lemma MovesOn(d: Screen, e: Screen, f: Screen)
    requires Moves(d, e) && Moves(e, f)
    ensures Moves(d, f)
  {
    hide Sizes, Replays;
    AppendsOn(d, e, f);
  }

  /** Setting the viewport by itself moves nothing else. */
  lemma ViewportSet(d: Screen, vp: Viewport, e: Screen)
    requires Moves(d.(viewport := vp), e)
    ensures Moves(d, e)
  {
  }

  lemma StaysPut(d: Screen)
    requires Sizes(d) && Replays(d) && FlushInv(d)
    ensures Moves(d, d)
  {
    OneAdded(d, d, [], []);
  }

  lemma RefreshMoves(d: Screen)
    requires Sizes(d) && Replays(d) && FlushInv(d)
    ensures var e := OwnFlip(Damage(d, d.viewport.x, d.viewport.y, d.viewport.w, d.viewport.h)); RunInv(e) && Moves(d, e)
  {
    hide OwnFlip, Replays, HasSize, Agrees;
    RefreshInOrder(d);
  }

  lemma ChangePosInOrder(d: Screen, deltaX: int, deltaY: int)
    requires Sizes(d) && Replays(d) && FlushInv(d)
    ensures Moves(d, ChangePos(d, deltaX, deltaY))
    ensures RunInv(d) ==> RunInv(ChangePos(d, deltaX, deltaY))
  {
    hide OwnFlip, DamageInv, DrawnAll, ClampX, ClampY, HasSize, Moves;
    var dx, dy := ClampX(d, deltaX), ClampY(d, deltaY);
    if dx != 0 || dy != 0 {
      var vp := d.viewport.(x := d.viewport.x + dx, y := d.viewport.y + dy);
      var d1 := d.(viewport := vp);
      assert Replays(d1) && Sizes(d1);
      RefreshMoves(d1);
      ViewportSet(d, vp, OwnFlip(Damage(d1, vp.x, vp.y, vp.w, vp.h)));
    } else {
      StaysPut(d);
    }
  }

  lemma ResizedCanvas(d: Screen, vp: Viewport, target: Image, e: Screen)
    requires Moves(d.(viewport := vp, target := target), e)
    ensures Moves(d, e)
  {
  }

  lemma MovedParts(d: Screen, e: Screen)
    requires Moves(d, e)
    ensures Sizes(e) && Replays(e) && FlushInv(e)
  {
  }

  lemma {:induction false} ChangeSizeInOrder(d: Screen, width: nat, height: nat)
    requires RunInv(d)
    ensures var e := ChangeSize(d, width, height); RunInv(e) && Moves(d, e)
  {
    ChangeSizeKeeps(d, width, height);
    hide OwnFlip, ChangePos, Agrees, DrawnAll, Moves, HasSize;
    var vp := Sized(d, width, height);
    if vp != d.viewport {
      var d0 := d.(viewport := vp, target := Blank(vp.w, vp.h));
      assert Replays(d0) && Sizes(d0);
      ChangePosInOrder(d0, 0, 0);
      var d1 := ChangePos(d0, 0, 0);
      MovedParts(d0, d1);
      RefreshMoves(d1);
      MovesOn(d0, d1, ChangeSize(d, width, height));
      ResizedCanvas(d, vp, Blank(vp.w, vp.h), ChangeSize(d, width, height));
    } else {
      StaysPut(d);
    }
  }

  lemma {:induction false} AdjustInOrder(d: Screen)
    requires RunInv(d)
    ensures var e := ChangePos(ChangeSize(d, d.viewport.w, d.viewport.h), 0, 0); RunInv(e) && Moves(d, e)
  {
    hide ChangePos, ChangeSize, Agrees, DrawnAll, Moves;
    ChangeSizeInOrder(d, d.viewport.w, d.viewport.h);
    var e := ChangeSize(d, d.viewport.w, d.viewport.h);
    ChangePosInOrder(e, 0, 0);
    MovesOn(d, e, ChangePos(e, 0, 0));
  }

  lemma {:induction false} SetClipInOrder(d: Screen, clip: bool)
    requires RunInv(d)
    ensures var e := SetClip(d, clip); RunInv(e) && Moves(d, e)
  {
    hide ChangePos, ChangeSize, DamageInv, DrawnAll;
    var d1 := d.(clip := clip);
    SamePictureKeeps(d, d1);
    assert Replays(d1);
    AdjustInOrder(d1);
  }

  lemma WithNewSizeKeeps(d: Screen, width: nat, height: nat)
    requires RunInv(d)
    ensures RunInv(WithNewSize(d, width, height))
  {
    var d1 := WithNewSize(d, width, height);
    assert d1.drawn[d1.baseMark..] == [];
    hide Resized, DamageInv;
    ResizedBackKeeps(d, width, height);
    if d.backWidth == width && d.backHeight == height {
      SamePictureKeeps(d, d1);
    } else {
      SamePictureKeeps(d.(backWidth := width, backHeight := height, back := Resized(d.back, width, height)), d1);
    }
  }

  /** A resize adds nothing but the display's own flips, and restarts the history of the backbuffer from
      the resized picture. */
  lemma {:induction false} ResizeInOrder(d: Screen, width: nat, height: nat)
    requires RunInv(d)
    ensures var e := Resize(d, width, height);
            && RunInv(e) && AsAsked(d, e) && OnlyFlips(d, e) && e.flushes == d.flushes
            && e.base == WithNewSize(d, width, height).back && e.baseMark == |d.drawn|
            && e.backWidth == width && e.backHeight == height
  {
    WithNewSizeKeeps(d, width, height);
    hide Resized, ChangePos, ChangeSize, DamageInv, DrawnAll;
    var d1 := WithNewSize(d, width, height);
    AdjustInOrder(d1);
    OneAdded(d, d1, [], []);
    AppendsOn(d, d1, Resize(d, width, height));
  }

  // ----- runs -----

  /** The events of a display. A blit may start anywhere in its buffer, as the raw pixels of a rectangle
      or tile do in the receive queue. */
  datatype Call =
    | CallFlip
    | CallFill(x: int, y: int, w: nat, h: nat, color: Color)
    | CallCopy(oldX: int, oldY: int, x: int, y: int, w: nat, h: nat)
    | CallBlit(x: int, y: int, w: nat, h: nat, buffer: seq<Pixel>, start: nat)
    | CallPicture(img: Picture, x: int, y: int, w: nat, h: nat)
    | CallLoaded(id: nat)
    | CallFlush
    | CallPos(dx: int, dy: int)
    | CallSize(w: nat, h: nat)
    | CallClip(on: bool)
    | CallResize(w: nat, h: nat)

  function Apply(d: Screen, call: Call): Screen {
    match call
    case CallFlip => Submit(d, FlipAct)
    case CallFill(x, y, w, h, color) => Submit(d, FillAct(x, y, w, h, color))
    case CallCopy(oldX, oldY, x, y, w, h) => Submit(d, CopyAct(oldX, oldY, x, y, w, h))
    case CallBlit(x, y, w, h, buffer, start) => Blit(d, x, y, w, h, buffer, start)
    case CallPicture(img, x, y, w, h) => DrawPicture(d, img, x, y, w, h)
    case CallLoaded(id) => ImageLoaded(d, id)
    case CallFlush => RequestFlush(d)
    case CallPos(dx, dy) => ChangePos(d, dx, dy)
    case CallSize(w, h) => ChangeSize(d, w, h)
    case CallClip(on) => SetClip(d, on)
    case CallResize(w, h) => Resize(d, w, h)
  }

  function Run(d: Screen, calls: seq<Call>): Screen
    decreases |calls|
  {
    if calls == [] then d else Run(Apply(d, calls[0]), calls[1..])
  }

  predicate Faithful(d: Screen, call: Call) {
    call.CallBlit? ==> BlitFaithful(d, call.w, call.h, call.buffer, call.start)
  }

  /** Every blit of the run meets an empty queue, or finds its pixels at the start of the buffer too. */
  predicate AllFaithful(d: Screen, calls: seq<Call>)
    decreases |calls|
  {
    calls == [] || (Faithful(d, calls[0]) && AllFaithful(Apply(d, calls[0]), calls[1..]))
  }

  lemma {:induction false} ApplyKeeps(d: Screen, call: Call)
    requires RunInv(d)
    ensures var e := Apply(d, call);
            && RunInv(e) && Appends(d, e) && (AsAsked(d, e) <==> Faithful(d, call))
            && (e.flushes != d.flushes ==> e.renderQ == [])
            && (!call.CallResize? ==> SameBase(d, e))
  {
    hide RunInv, Submit, Blit, DrawPicture, ImageLoaded, RequestFlush, ChangePos, ChangeSize, SetClip, Resize, BlitFaithful, Appends;
    hide Replays, Sizes;
    match call
    case CallFlip => SubmitInOrder(d, FlipAct);
    case CallFill(x, y, w, h, color) => SubmitInOrder(d, FillAct(x, y, w, h, color));
    case CallCopy(oldX, oldY, x, y, w, h) => SubmitInOrder(d, CopyAct(oldX, oldY, x, y, w, h));
    case CallBlit(x, y, w, h, buffer, start) => BlitInOrder(d, x, y, w, h, buffer, start);
    case CallPicture(img, x, y, w, h) => PictureInOrder(d, img, x, y, w, h);
    case CallLoaded(id) => LoadedInOrder(d, id);
    case CallFlush => FlushInOrder(d);
    case CallPos(dx, dy) =>
      Parts(d);
      ChangePosInOrder(d, dx, dy);
    case CallSize(w, h) => ChangeSizeInOrder(d, w, h);
    case CallClip(on) => SetClipInOrder(d, on);
    case CallResize(w, h) => ResizeInOrder(d, w, h);
  }

  lemma Parts(d: Screen)
    requires RunInv(d)
    ensures Sizes(d) && Replays(d) && FlushInv(d)
  {
  }

  /** Every state of every run: the damage rectangle is exact, the backbuffer is what drawing makes of it, no
      flush is forgotten, and what is added is what was asked for exactly if every blit of the run meets
      an empty queue or finds its pixels at the start of its buffer. */
  lemma {:induction false} RunKeeps(d: Screen, calls: seq<Call>)
    requires RunInv(d)
    ensures var e := Run(d, calls);
            RunInv(e) && Appends(d, e) && (AsAsked(d, e) <==> AllFaithful(d, calls))
    decreases |calls|
  {
    hide RunInv, Apply, Faithful, Appends, AsAsked;
    if calls == [] {
      OneAdded(d, d, [], []);
      assert All(d) + [] == All(d) && d.submitted + [] == d.submitted;
    } else {
      var e := Apply(d, calls[0]);
      ApplyKeeps(d, calls[0]);
      RunKeeps(e, calls[1..]);
      AppendsOn(d, e, Run(e, calls[1..]));
    }
  }

  /** Drawing is in order in every state of every run of a new display, exactly as far as its blits are. */
  lemma InOrderFromTheStart(width: nat, height: nat, calls: seq<Call>)
    ensures var e := Run(NewScreen(width, height), calls);
            DamageInv(e) && FlushInv(e) && (InOrder(e) <==> AllFaithful(NewScreen(width, height), calls))
  {
    var d := NewScreen(width, height);
    NewScreenAgrees(width, height);
    assert RunInv(d);
    hide Apply, DamageInv, DrawnAll;
    RunKeeps(d, calls);
    InOrderIff(d, Run(d, calls));
  }

  lemma {:induction false} RunAppend(d: Screen, a: seq<Call>, b: seq<Call>)
    ensures Run(d, a + b) == Run(Run(d, a), b)
    decreases |a|
  {
    hide Apply;
    if a == [] {
      assert a + b == b;
    } else {
      assert (a + b)[0] == a[0] && (a + b)[1..] == a[1..] + b;
      RunAppend(Apply(d, a[0]), a[1..], b);
    }
  }

  // ----- the viewport in runs -----

  lemma ApplyInside(d: Screen, call: Call)
    requires Inside(d)
    ensures Inside(Apply(d, call))
  {
    hide Submit, Push, ChangePos, ChangeSize, SetClip, Resize, Execute, ScanRenderQ;
    match call
    case CallFlip => SubmitFrame(d, FlipAct);
    case CallFill(x, y, w, h, color) => SubmitFrame(d, FillAct(x, y, w, h, color));
    case CallCopy(oldX, oldY, x, y, w, h) => SubmitFrame(d, CopyAct(oldX, oldY, x, y, w, h));
    case CallBlit(x, y, w, h, buffer, start) => BlitFrame(d, x, y, w, h, buffer, start);
    case CallPicture(img, x, y, w, h) => PushFrame(d.(submitted := d.submitted + [ImgAct(img, x, y, w, h)]), ImgAct(img, x, y, w, h));
    case CallLoaded(id) => ScanFrame(d.(loaded := d.loaded + {id}, listening := d.listening - {id}));
    case CallFlush =>
    case CallPos(dx, dy) => MoveInside(d, dx, dy);
    case CallSize(w, h) => ChangeSizeInsideIff(d, w, h);
    case CallClip(on) => SetClipInsideIff(d, on);
    case CallResize(w, h) => ResizeInsideIff(d, w, h);
  }

  lemma PushFrame(d: Screen, a: Action)
    ensures SameFrame(d, Push(d, a))
  {
    hide ScanRenderQ;
    ScanFrame(d.(renderQ := d.renderQ + [a]));
  }

  lemma BlitFrame(d: Screen, x: int, y: int, w: nat, h: nat, buffer: seq<Pixel>, start: nat)
    ensures SameFrame(d, Blit(d, x, y, w, h, buffer, start))
  {
    hide Push, Execute;
    if !BlitThrows(d, w, h, buffer, start) {
      var asked := BlitAct(x, y, w, h, Slice(buffer, start, w * h));
      var d1 := d.(submitted := d.submitted + [asked]);
      PushFrame(d1, BlitAct(x, y, w, h, if w * h <= |buffer| then buffer[..w * h] else []));
      ExecuteFrame(d1, asked);
    }
  }

  /** Once inside, a viewport stays inside, in every run. */
  lemma {:induction false} RunInside(d: Screen, calls: seq<Call>)
    requires Inside(d)
    ensures Inside(Run(d, calls))
    decreases |calls|
  {
    hide Apply, Inside;
    if calls != [] {
      ApplyInside(d, calls[0]);
      RunInside(Apply(d, calls[0]), calls[1..]);
    }
  }

  /** The viewport lies inside the framebuffer right after a resize exactly if, before it, it was not left
      of the framebuffer or clipping was off and the new width is not zero; and then it stays inside
      whatever comes afterwards. */
  lemma {:induction false} InsideFromResize(d: Screen, before: seq<Call>, w: nat, h: nat, after: seq<Call>)
    ensures var e := Run(d, before);
            && (Inside(Run(d, before + [CallResize(w, h)])) <==> e.viewport.x >= 0 || (!e.clip && w > 0))
            && (e.viewport.x >= 0 || (!e.clip && w > 0) ==> Inside(Run(d, before + ([CallResize(w, h)] + after))))
  {
    hide Apply, Inside, Resize;
    var e := Run(d, before);
    var last := [CallResize(w, h)];
    RunAppend(d, before, last);
    RunAppend(d, before, last + after);
    RunAppend(e, last, after);
    assert last[1..] == [];
    assert Run(e, last) == Run(Apply(e, CallResize(w, h)), []);
    assert Apply(e, CallResize(w, h)) == Resize(e, w, h) by { ApplyResize(e, w, h); }
    ResizeInsideIff(e, w, h);
    if e.viewport.x >= 0 || (!e.clip && w > 0) {
      RunInside(Resize(e, w, h), after);
    }
  }

  lemma ApplyResize(d: Screen, w: nat, h: nat)
    ensures Apply(d, CallResize(w, h)) == Resize(d, w, h)
  {
  }
}
