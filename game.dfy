/** The game loop's use of the animation subsystem: creating the player's
    walk and idle animations, choosing between them each frame, and turning
    every visible animated entity into a sprite-sheet draw call. */
module Game {
  import opened AnimationTypes
  import opened AnimationSystem

  /** The "no animation" marker an entity carries: the all-ones 64-bit size. */
  const NO_ANIMATION: nat := 0xFFFF_FFFF_FFFF_FFFF

  datatype Vec2 = Vec2(x: real, y: real)

  /** What the render pass reads of an entity and of its physics body. */
  datatype Entity = Entity(isActive: bool, animationId: nat, velocityX: real, position: Vec2)

  /** One sprite draw handed to the renderer. */
  datatype DrawCall = DrawCall(sheet: SheetHandle, row: U8, column: U8, position: Vec2, flipped: bool)

  // ---------------------------------------------------------------------
  // Player animations
  // ---------------------------------------------------------------------

  /** The player's two definitions and two instances: a looping seven-frame
      walk (0.1 s per frame, row 0, columns 1..7) and a non-looping idle of
      one zero-length frame at row 0, column 0. */
  method LoadPlayerAnimations(store: AnimationStore, sheet: SheetHandle)
    returns (walkDef: nat, idleDef: nat, walkAnim: nat, idleAnim: nat)
    requires store.Valid()
    modifies store
    ensures store.Valid()
    ensures walkDef == old(|store.defs|) && idleDef == walkDef + 1 && |store.defs| == idleDef + 1
    ensures store.defs[walkDef].sheet == sheet && store.defs[idleDef].sheet == sheet
    ensures store.defs[walkDef].frameCount == 7 && store.defs[idleDef].frameCount == 1
    ensures forall i :: 0 <= i < 7 ==> store.defs[walkDef].frames[i] == Frame(0.1, 0, i + 1)
    ensures store.defs[idleDef].frames[0] == Frame(0.0, 0, 0)
    ensures walkAnim != idleAnim && walkAnim < |store.slots| && idleAnim < |store.slots|
    ensures store.slots[walkAnim] == Fresh(walkDef, true)
    ensures store.slots[idleAnim] == Fresh(idleDef, false)
    ensures store.defs[..walkDef] == old(store.defs)
    ensures walkAnim == FirstFree(old(store.slots))
    ensures |old(store.slots)| <= |store.slots| <= |old(store.slots)| + 2
    ensures forall j :: 0 <= j < |old(store.slots)| && j != walkAnim && j != idleAnim ==> store.slots[j] == old(store.slots)[j]
    ensures old(store.defs) == [] && old(store.slots) == [] ==>
      walkDef == 0 && idleDef == 1 && walkAnim == 0 && idleAnim == 1 && |store.slots| == 2
  {
    walkDef := store.DefCreate(sheet, [0.1, 0.1, 0.1, 0.1, 0.1, 0.1, 0.1], [0, 0, 0, 0, 0, 0, 0], [1, 2, 3, 4, 5, 6, 7], 7);
    ghost var walk := store.defs[walkDef];
    idleDef := store.DefCreate(sheet, [0.0], [0], [0], 1);
    assert store.defs[walkDef] == walk by {
      assert store.defs[..idleDef][walkDef] == store.defs[walkDef];
    }
    var w := store.Create(walkDef, true);
    walkAnim := w.value;
    var i := store.Create(idleDef, false);
    idleAnim := i.value;
    assert store.defs[..walkDef] == old(store.defs);
  }

  /** The player shows its walk animation while it moves horizontally and
      its idle animation while it stands still. */
  function ChooseAnimation(velocityX: real, walkAnim: nat, idleAnim: nat): (id: nat)
    ensures velocityX != 0.0 ==> id == walkAnim
    ensures velocityX == 0.0 ==> id == idleAnim
  {
    if velocityX != 0.0 then walkAnim else idleAnim
  }

  // ---------------------------------------------------------------------
  // Frame resolution
  // ---------------------------------------------------------------------

  /** Facing: moving left flips the sprite, moving right unflips it, and
      standing still keeps the previous facing. */
  function Flip(velocityX: real, flipped: bool): (f: bool)
    ensures velocityX < 0.0 ==> f
    ensures velocityX > 0.0 ==> !f
    ensures velocityX == 0.0 ==> f == flipped
  {
    if velocityX < 0.0 then true
    else if velocityX > 0.0 then false
    else flipped
  }

  /** The flag after one render pass per entry of `vs`, in order. */
  function FlipAfter(vs: seq<real>, flipped: bool): bool
    decreases |vs|
  {
    if vs == [] then flipped else Flip(vs[|vs| - 1], FlipAfter(vs[..|vs| - 1], flipped))
  }

  /** The most recent non-zero velocity of `vs`, if any. */
  function LastMove(vs: seq<real>): Option<real>
    decreases |vs|
  {
    if vs == [] then None
    else if vs[|vs| - 1] != 0.0 then Some(vs[|vs| - 1])
    else LastMove(vs[..|vs| - 1])
  }

  /** Over many frames the sprite faces the way the entity last moved: it is
      flipped exactly when the last non-zero velocity was negative, and keeps
      its starting facing if it never moved. */
  lemma {:induction false} FlipFollowsLastMove(vs: seq<real>, flipped: bool)
    ensures FlipAfter(vs, flipped) == match LastMove(vs) case None => flipped case Some(v) => v < 0.0
    decreases |vs|
  {
    if vs != [] {
      FlipFollowsLastMove(vs[..|vs| - 1], flipped);
    }
  }

  /** The sheet cell an instance shows: the entry of its definition's frame
      table at its current index, which is one of the definition's own
      frames when the instance is in bounds. */
  function CurrentFrame(a: Animation, d: Definition): (f: Frame)
    requires a.currentFrameIndex < MAX_FRAMES
    ensures InBounds(a, d) ==> f in d.frames[..d.frameCount]
  {
    d.frames[a.currentFrameIndex]
  }

  /** An entity is drawn when it is active and carries an animation. */
  predicate Drawable(e: Entity) {
    e.isActive && e.animationId != NO_ANIMATION
  }

  /** Every drawable entity names an existing instance. */
  predicate AnimationsExist(es: seq<Entity>, slots: seq<Animation>) {
    forall i :: 0 <= i < |es| && Drawable(es[i]) ==> es[i].animationId < |slots|
  }

  /** The render pass over `es`, in order: the pool after the flip updates
      and the draw calls issued. */
  function RenderPass(slots: seq<Animation>, defs: seq<Definition>, es: seq<Entity>): (r: (seq<Animation>, seq<DrawCall>))
    requires PoolOk(slots, defs) && AnimationsExist(es, slots)
    ensures |r.0| == |slots|
    ensures forall i :: 0 <= i < |slots| ==> r.0[i] == slots[i].(isFlipped := r.0[i].isFlipped)
    decreases |es|
  {
    if es == [] then (slots, [])
    else
      var prefix := es[..|es| - 1];
      assert AnimationsExist(prefix, slots) by {
        forall i | 0 <= i < |prefix| && Drawable(prefix[i]) ensures prefix[i].animationId < |slots| {
          assert prefix[i] == es[i];
        }
      }
      var (s, ds) := RenderPass(slots, defs, prefix);
      var e := es[|es| - 1];
      if !Drawable(e) then (s, ds)
      else
        var a := s[e.animationId];
        assert SlotOk(slots[e.animationId], defs);
        var d := defs[a.definitionId];
        var f := CurrentFrame(a, d);
        var flipped := Flip(e.velocityX, a.isFlipped);
        (s[e.animationId := a.(isFlipped := flipped)], ds + [DrawCall(d.sheet, f.row, f.column, e.position, flipped)])
  }

  /** The entities the render pass draws, in order. */
  function Drawn(es: seq<Entity>): (ds: seq<Entity>)
    decreases |es|
  {
    if es == [] then []
    else if Drawable(es[|es| - 1]) then Drawn(es[..|es| - 1]) + [es[|es| - 1]]
    else Drawn(es[..|es| - 1])
  }

  /** The render pass draws exactly the active, animated entities, in order:
      each at its own position, showing the current frame of its own
      instance's own definition, facing the way it moves. */
  lemma {:induction false} RenderPassDrawsDrawable(slots: seq<Animation>, defs: seq<Definition>, es: seq<Entity>)
    requires PoolOk(slots, defs) && AnimationsExist(es, slots)
    ensures var draws := RenderPass(slots, defs, es).1;
      && |draws| == |Drawn(es)|
      && forall k :: 0 <= k < |draws| ==>
        var e := Drawn(es)[k];
        && Drawable(e) && e.animationId < |slots|
        && var a := slots[e.animationId];
        && var f := defs[a.definitionId].frames[a.currentFrameIndex];
        && draws[k].sheet == defs[a.definitionId].sheet
        && draws[k].row == f.row && draws[k].column == f.column
        && draws[k].position == e.position
        && (e.velocityX < 0.0 ==> draws[k].flipped)
        && (e.velocityX > 0.0 ==> !draws[k].flipped)
    decreases |es|
  {
    if es != [] {
      var prefix := es[..|es| - 1];
      assert AnimationsExist(prefix, slots) by {
        forall i | 0 <= i < |prefix| && Drawable(prefix[i]) ensures prefix[i].animationId < |slots| {
          assert prefix[i] == es[i];
        }
      }
      RenderPassDrawsDrawable(slots, defs, prefix);
    }
  }

  /** The horizontal velocities, in order, of the drawable entities of `es`
      that name instance `j`: the moves the render pass applies to that
      instance's facing. */
  function VelocitiesFor(es: seq<Entity>, j: nat): seq<real>
    decreases |es|
  {
    if es == [] then []
    else
      var e := es[|es| - 1];
      if Drawable(e) && e.animationId == j then VelocitiesFor(es[..|es| - 1], j) + [e.velocityX]
      else VelocitiesFor(es[..|es| - 1], j)
  }

  /** The drawn entities hand every instance the same moves as all entities. */
  lemma {:induction false} VelocitiesOfDrawn(es: seq<Entity>, j: nat)
    ensures VelocitiesFor(Drawn(es), j) == VelocitiesFor(es, j)
    decreases |es|
  {
    if es != [] {
      var prefix := es[..|es| - 1];
      VelocitiesOfDrawn(prefix, j);
      if Drawable(es[|es| - 1]) {
        var ds := Drawn(es);
        assert ds[..|ds| - 1] == Drawn(prefix);
      }
    }
  }

  /** The prefix of `es` satisfies AnimationsExist whenever `es` does. */
  lemma {:induction false} PrefixAnimationsExist(es: seq<Entity>, slots: seq<Animation>)
    requires es != [] && AnimationsExist(es, slots)
    ensures AnimationsExist(es[..|es| - 1], slots)
  {
    var prefix := es[..|es| - 1];
    forall i | 0 <= i < |prefix| && Drawable(prefix[i]) ensures prefix[i].animationId < |slots| {
      assert prefix[i] == es[i];
    }
  }

  /** After the render pass every instance faces as its starting facing,
      updated in order by the velocity of each drawable entity that names it:
      moving left flips, moving right unflips, standing still keeps. */
  lemma {:induction false} FlagsFollowNamers(slots: seq<Animation>, defs: seq<Definition>, es: seq<Entity>)
    requires PoolOk(slots, defs) && AnimationsExist(es, slots)
    ensures forall j :: 0 <= j < |slots| ==>
      RenderPass(slots, defs, es).0[j].isFlipped == FlipAfter(VelocitiesFor(es, j), slots[j].isFlipped)
    decreases |es|
  {
    if es != [] {
      var prefix := es[..|es| - 1];
      PrefixAnimationsExist(es, slots);
      FlagsFollowNamers(slots, defs, prefix);
      var e := es[|es| - 1];
      if Drawable(e) {
        var vs := VelocitiesFor(prefix, e.animationId);
        assert (vs + [e.velocityX])[..|vs|] == vs;
      }
    }
  }

  /** An instance that no drawable entity names leaves the render pass
      exactly as it entered, facing included. */
  lemma {:induction false} UndrawnKeepsSlot(slots: seq<Animation>, defs: seq<Definition>, es: seq<Entity>, j: nat)
    requires PoolOk(slots, defs) && AnimationsExist(es, slots)
    requires j < |slots| && VelocitiesFor(es, j) == []
    ensures RenderPass(slots, defs, es).0[j] == slots[j]
  {
    FlagsFollowNamers(slots, defs, es);
  }

  /** `draw` is the one issued for the last of the drawn entities `moved`,
      and faces as that entity's instance does after the moves of all of
      `moved` that name it, starting from its facing in `slots`. */
  predicate DrawFaces(draw: DrawCall, moved: seq<Entity>, slots: seq<Animation>) {
    && moved != []
    && var id := moved[|moved| - 1].animationId;
    && id < |slots|
    && draw.flipped == FlipAfter(VelocitiesFor(moved, id), slots[id].isFlipped)
  }

  /** Every draw of `draws` faces as DrawFaces says for its entity of `ds`. */
  predicate FacesAfterMoves(draws: seq<DrawCall>, ds: seq<Entity>, slots: seq<Animation>) {
    && |draws| == |ds|
    && forall k :: 0 <= k < |draws| ==> DrawFaces(draws[k], ds[..k + 1], slots)
  }

  /** FacesAfterMoves of a prefix and of the last draw gives it for the whole. */
  lemma {:induction false} FacesAfterMovesExtend(draws: seq<DrawCall>, ds: seq<Entity>, slots: seq<Animation>)
    requires |draws| == |ds| && |ds| > 0
    requires FacesAfterMoves(draws[..|draws| - 1], ds[..|ds| - 1], slots)
    requires DrawFaces(draws[|draws| - 1], ds, slots)
    ensures FacesAfterMoves(draws, ds, slots)
  {
    var m := |ds| - 1;
    forall k | 0 <= k < |draws|
      ensures DrawFaces(draws[k], ds[..k + 1], slots)
    {
      if k < m {
        assert draws[..m][k] == draws[k] && ds[..m][..k + 1] == ds[..k + 1];
      } else {
        assert ds[..k + 1] == ds;
      }
    }
  }

  /** Each draw's facing is its instance's starting facing updated by the
      velocities of the drawn entities naming that instance, up to and
      including this one; so a still entity draws with the facing its
      instance already had. */
  lemma {:induction false} DrawFacing(slots: seq<Animation>, defs: seq<Definition>, es: seq<Entity>)
    requires PoolOk(slots, defs) && AnimationsExist(es, slots)
    ensures FacesAfterMoves(RenderPass(slots, defs, es).1, Drawn(es), slots)
    decreases |es|
  {
    if es != [] {
      var prefix := es[..|es| - 1];
      DrawsExtend(slots, defs, es);
      DrawFacing(slots, defs, prefix);
      var draws := RenderPass(slots, defs, es).1;
      var ds := Drawn(es);
      if Drawable(es[|es| - 1]) {
        DrawFacingLast(slots, defs, es);
        FacesAfterMovesExtend(draws, ds, slots);
      } else {
        assert draws == RenderPass(slots, defs, prefix).1 && ds == Drawn(prefix);
      }
    }
  }

  /** The render pass over `es` begins with the draws of its prefix, and the
      drawn entities of `es` begin with those of the prefix. */
  lemma {:induction false} DrawsExtend(slots: seq<Animation>, defs: seq<Definition>, es: seq<Entity>)
    requires PoolOk(slots, defs) && AnimationsExist(es, slots) && es != []
    ensures AnimationsExist(es[..|es| - 1], slots)
    ensures |RenderPass(slots, defs, es).1| == |Drawn(es)|
    ensures var m := |Drawn(es[..|es| - 1])|;
      && |Drawn(es)| == (if Drawable(es[|es| - 1]) then m + 1 else m)
      && RenderPass(slots, defs, es).1[..m] == RenderPass(slots, defs, es[..|es| - 1]).1
      && Drawn(es)[..m] == Drawn(es[..|es| - 1])
  {
    PrefixAnimationsExist(es, slots);
    DrawCount(slots, defs, es);
    DrawCount(slots, defs, es[..|es| - 1]);
  }

  /** One draw per drawn entity. */
  lemma {:induction false} DrawCount(slots: seq<Animation>, defs: seq<Definition>, es: seq<Entity>)
    requires PoolOk(slots, defs) && AnimationsExist(es, slots)
    ensures |RenderPass(slots, defs, es).1| == |Drawn(es)|
    decreases |es|
  {
    if es != [] {
      PrefixAnimationsExist(es, slots);
      DrawCount(slots, defs, es[..|es| - 1]);
    }
  }

  /** The facing of the draw the last entity triggers. */
  lemma {:induction false} DrawFacingLast(slots: seq<Animation>, defs: seq<Definition>, es: seq<Entity>)
    requires PoolOk(slots, defs) && AnimationsExist(es, slots)
    requires es != [] && Drawable(es[|es| - 1])
    ensures |RenderPass(slots, defs, es).1| > 0
    ensures DrawFaces(RenderPass(slots, defs, es).1[|RenderPass(slots, defs, es).1| - 1], Drawn(es), slots)
  {
    var prefix := es[..|es| - 1];
    var e := es[|es| - 1];
    assert e == es[|es| - 1];
    PrefixAnimationsExist(es, slots);
    FlagsFollowNamers(slots, defs, prefix);
    VelocitiesOfDrawn(es, e.animationId);
    var vs := VelocitiesFor(prefix, e.animationId);
    assert VelocitiesFor(es, e.animationId) == vs + [e.velocityX];
    assert (vs + [e.velocityX])[..|vs|] == vs;
  }

  /** The render loop: for every entity in order, skip it when inactive or
      without animation; otherwise update its instance's facing from the
      entity's horizontal velocity and draw the instance's current frame. */
  method RenderAnimated(store: AnimationStore, entities: seq<Entity>) returns (draws: seq<DrawCall>)
    requires store.Valid()
    requires AnimationsExist(entities, store.slots)
    modifies store
    ensures store.Valid() && store.defs == old(store.defs)
    ensures (store.slots, draws) == RenderPass(old(store.slots), store.defs, entities)
  {
    draws := [];
    ghost var slots0 := store.slots;
    for i := 0 to |entities|
      invariant store.Valid() && store.defs == old(store.defs)
      invariant PoolOk(slots0, store.defs) && AnimationsExist(entities[..i], slots0)
      invariant (store.slots, draws) == RenderPass(slots0, store.defs, entities[..i])
    {
      assert entities[..i + 1][..i] == entities[..i];
      var e := entities[i];
      if !e.isActive {
        continue;
      }
      if e.animationId == NO_ANIMATION {
        continue;
      }
      var anim := store.slots[e.animationId];
      var adef := store.defs[anim.definitionId];
      var frame := CurrentFrame(anim, adef);
      var flipped := Flip(e.velocityX, anim.isFlipped);
      store.slots := store.slots[e.animationId := anim.(isFlipped := flipped)];
      draws := draws + [DrawCall(adef.sheet, frame.row, frame.column, e.position, flipped)];
    }
    assert entities[..|entities|] == entities;
  }
}
