/** The animation subsystem: the definition registry, the instance pool with
    free-slot reuse, and the per-tick frame-advance state machine. */
module AnimationSystem {
  import opened AnimationTypes

  // ---------------------------------------------------------------------
  // Frame advance
  // ---------------------------------------------------------------------

  /** The index an instance moves to once its timer has run out: one step
      forward, and on reaching `frameCount` either back to 0 (looping) or one
      step back (holding the last frame). Computed in 8-bit arithmetic and
      without any bounds check, as the engine does. */
  function NextIndex(index: U8, frameCount: U8, doesLoop: bool): (k: U8)
    ensures index + 1 < frameCount ==> k == index + 1
    ensures index + 1 == frameCount ==> k == (if doesLoop then 0 else index)
    ensures index < frameCount ==> k < frameCount
  {
    var bumped := (index + 1) % 256;
    if bumped == frameCount then
      (if doesLoop then 0 else (bumped + 255) % 256)
    else
      bumped
  }

  /** One tick of `dt` leaves the frame table alone or reads an entry of it
      that exists. */
  predicate TickInRange(a: Animation, d: Definition, dt: real) {
    a.currentFrameTime - dt > 0.0
    || NextIndex(a.currentFrameIndex, d.frameCount, a.doesLoop) < MAX_FRAMES
  }

  /** One tick of the frame-advance state machine for one instance: the timer
      drops by `dt`; once it is at or below zero the index takes exactly one
      step and the timer is reloaded from the frame now current. */
  function Tick(a: Animation, d: Definition, dt: real): (r: Animation)
    requires TickInRange(a, d, dt)
    ensures r.definitionId == a.definitionId && r.doesLoop == a.doesLoop
    ensures r.isActive == a.isActive && r.isFlipped == a.isFlipped
    ensures a.currentFrameTime - dt > 0.0 ==>
      r.currentFrameIndex == a.currentFrameIndex && r.currentFrameTime == a.currentFrameTime - dt
    ensures a.currentFrameTime - dt <= 0.0 && InBounds(a, d) ==>
      r.currentFrameIndex ==
        (if a.currentFrameIndex + 1 < d.frameCount then a.currentFrameIndex + 1
         else if a.doesLoop then 0
         else a.currentFrameIndex)
    ensures a.currentFrameTime - dt <= 0.0 ==>
      r.currentFrameIndex < MAX_FRAMES && r.currentFrameTime == d.frames[r.currentFrameIndex].duration
    ensures InBounds(a, d) ==> InBounds(r, d)
  {
    var t := a.currentFrameTime - dt;
    if t > 0.0 then
      a.(currentFrameTime := t)
    else
      var k := NextIndex(a.currentFrameIndex, d.frameCount, a.doesLoop);
      a.(currentFrameIndex := k, currentFrameTime := d.frames[k].duration)
  }

  /** One tick per entry of `dts`, in order, as successive frames of the
      game loop deliver them; None once a tick would read past the frame
      table (undefined behaviour in the engine). */
  function Ticks(a: Animation, d: Definition, dts: seq<real>): Option<Animation>
    decreases |dts|
  {
    if dts == [] then Some(a)
    else
      match Ticks(a, d, dts[..|dts| - 1])
      case None => None
      case Some(b) =>
        var dt := dts[|dts| - 1];
        if TickInRange(b, d, dt) then Some(Tick(b, d, dt)) else None
  }

  // ---------------------------------------------------------------------
  // Instance pool, as a sequence of slots
  // ---------------------------------------------------------------------

  /** The state a created instance starts in. */
  function Fresh(defId: nat, doesLoop: bool): Animation {
    Animation(defId, 0.0, 0, doesLoop, true, false)
  }

  /** The slot creation picks: the lowest inactive one, or one past the end
      when every slot is active. */
  function FirstFree(slots: seq<Animation>): (k: nat)
    ensures k <= |slots|
    ensures k < |slots| ==> !slots[k].isActive
    ensures forall j :: 0 <= j < k ==> slots[j].isActive
  {
    if slots == [] then 0
    else if !slots[0].isActive then 0
    else 1 + FirstFree(slots[1..])
  }

  /** The pool after `a` is put into the slot FirstFree picks. */
  function Claim(slots: seq<Animation>, a: Animation): (s: seq<Animation>)
    ensures |s| == |slots| + 1 <==> forall j :: 0 <= j < |slots| ==> slots[j].isActive
    ensures |s| == |slots| || |s| == |slots| + 1
    ensures FirstFree(slots) < |s| && s[FirstFree(slots)] == a
    ensures forall j :: 0 <= j < |slots| && j != FirstFree(slots) ==> s[j] == slots[j]
  {
    var k := FirstFree(slots);
    if k < |slots| then slots[k := a] else slots + [a]
  }

  /** Every slot names a stored definition and points at one of its frames. */
  predicate SlotOk(a: Animation, defs: seq<Definition>) {
    a.definitionId < |defs| && InBounds(a, defs[a.definitionId])
  }

  /** Every slot of the pool is consistent with the definitions. */
  predicate PoolOk(slots: seq<Animation>, defs: seq<Definition>) {
    forall i :: 0 <= i < |slots| ==> SlotOk(slots[i], defs)
  }

  // ---------------------------------------------------------------------
  // The definition registry and the instance pool
  // ---------------------------------------------------------------------

  /** A definition built from parallel arrays: frame i of the first
      `frameCount` takes the i-th duration, row and column; the rest of the
      table stays zero. */
  method BuildDefinition(sheet: SheetHandle, durations: seq<real>, rows: seq<U8>, columns: seq<U8>, frameCount: U8)
    returns (d: Definition)
    requires frameCount <= MAX_FRAMES
    requires frameCount <= |durations| && frameCount <= |rows| && frameCount <= |columns|
    ensures d.sheet == sheet && d.frameCount == frameCount
    ensures forall i :: 0 <= i < frameCount ==> d.frames[i] == Frame(durations[i], rows[i], columns[i])
    ensures forall i :: frameCount <= i < MAX_FRAMES ==> d.frames[i] == ZERO_FRAME
  {
    var frames: FrameTable := ZERO_TABLE;
    for i := 0 to frameCount
      invariant forall j :: 0 <= j < i ==> frames[j] == Frame(durations[j], rows[j], columns[j])
      invariant forall j :: i <= j < MAX_FRAMES ==> frames[j] == ZERO_FRAME
    {
      frames := frames[i := Frame(durations[i], rows[i], columns[i])];
    }
    d := Definition(sheet, frames, frameCount);
  }

  /** Both stores of the subsystem: the append-only definition registry and
      the pool of playback instances. */
  class AnimationStore {
    var defs: seq<Definition>
    var slots: seq<Animation>

    ghost predicate Valid()
      reads this
    {
      && (forall i :: 0 <= i < |defs| ==> Playable(defs[i]))
      && PoolOk(slots, defs)
    }

    /** Both stores start empty. */
    constructor ()
      ensures Valid() && defs == [] && slots == []
    {
      defs := [];
      slots := [];
    }

    /** Appends a new definition and returns its index. Earlier definitions,
        and hence every instance's link to its definition, are untouched. */
    method DefCreate(sheet: SheetHandle, durations: seq<real>, rows: seq<U8>, columns: seq<U8>, frameCount: U8)
      returns (id: nat)
      requires Valid()
      requires 1 <= frameCount <= MAX_FRAMES
      requires frameCount <= |durations| && frameCount <= |rows| && frameCount <= |columns|
      modifies this
      ensures Valid() && slots == old(slots)
      ensures id == old(|defs|) && |defs| == id + 1 && defs[..id] == old(defs)
      ensures defs[id].sheet == sheet && defs[id].frameCount == frameCount
      ensures forall i :: 0 <= i < frameCount ==> defs[id].frames[i] == Frame(durations[i], rows[i], columns[i])
      ensures forall i :: frameCount <= i < MAX_FRAMES ==> defs[id].frames[i] == ZERO_FRAME
    {
      var d := BuildDefinition(sheet, durations, rows, columns, frameCount);
      id := |defs|;
      defs := defs + [d];
      assert forall i :: 0 <= i < |slots| ==> defs[slots[i].definitionId] == old(defs)[slots[i].definitionId];
    }

    /** The slot the free-slot scan finds: the lowest inactive one, or the
        pool length when all are active. */
    method FreeSlot() returns (id: nat)
      ensures id == FirstFree(slots)
      ensures id <= |slots|
      ensures id < |slots| ==> !slots[id].isActive
      ensures forall j :: 0 <= j < id ==> slots[j].isActive
    {
      id := |slots|;
      var i := 0;
      while i < |slots|
        invariant 0 <= i <= |slots|
        invariant id == |slots|
        invariant forall j :: 0 <= j < i ==> slots[j].isActive
      {
        if !slots[i].isActive {
          id := i;
          break;
        }
        i := i + 1;
      }
    }

    /** Creates an instance of definition `defId`: None when that definition
        does not exist (the engine stops with an error), and otherwise the
        reused or appended slot, reset to a fresh instance. */
    method Create(defId: nat, doesLoop: bool) returns (r: Option<nat>)
      requires Valid()
      modifies this
      ensures Valid() && defs == old(defs)
      ensures r.None? <==> defId >= |defs|
      ensures r.None? ==> slots == old(slots)
      ensures r.Some? ==> r.value == FirstFree(old(slots))
      ensures r.Some? ==> slots == Claim(old(slots), Fresh(defId, doesLoop))
    {
      if defId >= |defs| {
        return None;
      }
      var id := FreeSlot();
      if id == |slots| {
        slots := slots + [Animation(0, 0.0, 0, false, false, false)];
      }
      slots := slots[id := Fresh(defId, doesLoop)];
      r := Some(id);
    }

    /** Marks instance `id` inactive; nothing else changes. An id past the
        end of the pool is reported as not found. */
    method Destroy(id: nat) returns (found: bool)
      requires Valid()
      modifies this
      ensures Valid() && defs == old(defs)
      ensures found <==> id < |old(slots)|
      ensures found ==> slots == old(slots)[id := old(slots)[id].(isActive := false)]
      ensures !found ==> slots == old(slots)
    {
      found := id < |slots|;
      if found {
        slots := slots[id := slots[id].(isActive := false)];
      }
    }

    /** The instance in slot `id`, or None when the id is out of range. */
    function Get(id: nat): (r: Option<Animation>)
      reads this
      ensures r.Some? <==> id < |slots|
      ensures r.Some? ==> r.value == slots[id]
    {
      if id < |slots| then Some(slots[id]) else None
    }

    /** Advances every slot, active or not, by one tick of `dt`. */
    method Update(dt: real)
      requires Valid()
      modifies this
      ensures Valid() && defs == old(defs) && |slots| == |old(slots)|
      ensures forall i :: 0 <= i < |slots| ==>
        slots[i] == Tick(old(slots)[i], defs[old(slots)[i].definitionId], dt)
    {
      for i := 0 to |slots|
        invariant Valid() && defs == old(defs) && |slots| == |old(slots)|
        invariant forall j :: 0 <= j < i ==>
          slots[j] == Tick(old(slots)[j], defs[old(slots)[j].definitionId], dt)
        invariant forall j :: i <= j < |slots| ==> slots[j] == old(slots)[j]
      {
        var a := slots[i];
        slots := slots[i := Tick(a, defs[a.definitionId], dt)];
      }
    }
  }

  // ---------------------------------------------------------------------
  // Properties
  // ---------------------------------------------------------------------

  /** An instance that points at a real frame keeps doing so under any
      sequence of frame times: the index never leaves [0, frameCount). */
  lemma {:induction false} TicksStayInBounds(a: Animation, d: Definition, dts: seq<real>)
    requires InBounds(a, d)
    ensures Ticks(a, d, dts).Some? && InBounds(Ticks(a, d, dts).value, d)
    ensures Ticks(a, d, dts).value.doesLoop == a.doesLoop
    ensures Ticks(a, d, dts).value.definitionId == a.definitionId
    decreases |dts|
  {
    if dts != [] {
      TicksStayInBounds(a, d, dts[..|dts| - 1]);
    }
  }

  /** A non-looping instance on its last frame stays there for ever, whatever
      frame times follow. */
  lemma {:induction false} ClampHoldsLastFrame(a: Animation, d: Definition, dts: seq<real>)
    requires InBounds(a, d) && !a.doesLoop && a.currentFrameIndex == d.frameCount - 1
    ensures Ticks(a, d, dts).Some?
    ensures Ticks(a, d, dts).value.currentFrameIndex == d.frameCount - 1
    decreases |dts|
  {
    if dts != [] {
      ClampHoldsLastFrame(a, d, dts[..|dts| - 1]);
      TicksStayInBounds(a, d, dts[..|dts| - 1]);
    }
  }

  /** A one-frame definition shows frame 0 under every sequence of frame
      times, whether or not it loops. */
  lemma {:induction false} SingleFrameStaysAtZero(a: Animation, d: Definition, dts: seq<real>)
    requires InBounds(a, d) && d.frameCount == 1
    ensures Ticks(a, d, dts).Some? && Ticks(a, d, dts).value.currentFrameIndex == 0
  {
    TicksStayInBounds(a, d, dts);
  }

  /** The state of a looping, evenly timed instance after `n` ticks of its
      frame duration: frame `n mod frameCount`, with the duration just
      reloaded (or still the zero timer of creation when `n == 0`). */
  function CycleState(defId: nat, dur: real, frameCount: nat, n: nat): Animation
    requires 1 <= frameCount <= MAX_FRAMES
  {
    Fresh(defId, true).(currentFrameIndex := n % frameCount,
                        currentFrameTime := if n == 0 then 0.0 else dur)
  }

  /** One tick of `dur` moves CycleState on from `n` to `n + 1`. */
  lemma LoopingStep(d: Definition, defId: nat, dur: real, n: nat)
    requires Playable(d) && dur >= 0.0
    requires forall i :: 0 <= i < d.frameCount ==> d.frames[i].duration == dur
    ensures TickInRange(CycleState(defId, dur, d.frameCount, n), d, dur)
    ensures Tick(CycleState(defId, dur, d.frameCount, n), d, dur) == CycleState(defId, dur, d.frameCount, n + 1)
  {
    var b := CycleState(defId, dur, d.frameCount, n);
    assert InBounds(b, d) && b.currentFrameTime - dur <= 0.0;
    NextModulo(n, d.frameCount);
  }

  /** A looping instance whose frames all last `dur`, ticked with `dt == dur`
      from creation, shows frame `n mod frameCount` after `n` ticks. */
  lemma {:induction false} LoopingCycles(d: Definition, defId: nat, dur: real, n: nat)
    requires Playable(d) && dur >= 0.0
    requires forall i :: 0 <= i < d.frameCount ==> d.frames[i].duration == dur
    ensures Ticks(Fresh(defId, true), d, seq(n, _ => dur)) == Some(CycleState(defId, dur, d.frameCount, n))
  {
    if n > 0 {
      assert seq(n, _ => dur)[..n - 1] == seq(n - 1, _ => dur);
      LoopingCycles(d, defId, dur, n - 1);
      LoopingStep(d, defId, dur, n - 1);
    }
  }

  /** `k * m >= m` for a positive multiplier. */
  lemma MulAtLeast(k: int, m: nat)
    requires k >= 1
    ensures k * m >= m
  {
  }

  /** The remainder is the only `r` in [0, m) with `x == q * m + r`. */
  lemma ModUnique(x: int, m: nat, q: int, r: int)
    requires m >= 1 && x == q * m + r && 0 <= r < m
    ensures x % m == r
  {
    var q', r' := x / m, x % m;
    assert (q - q') * m == r' - r;
    if q - q' >= 1 {
      MulAtLeast(q - q', m);
    } else if q' - q >= 1 {
      MulAtLeast(q' - q, m);
    }
  }

  /** Counting on from `n % m` by one either steps up or wraps to 0. */
  lemma NextModulo(n: nat, m: nat)
    requires m >= 1
    ensures n % m + 1 < m ==> (n + 1) % m == n % m + 1
    ensures n % m + 1 == m ==> (n + 1) % m == 0
  {
    var q, r := n / m, n % m;
    if r + 1 < m {
      ModUnique(n + 1, m, q, r + 1);
    } else {
      ModUnique(n + 1, m, q + 1, 0);
    }
  }

  /** However large `dt` is, a tick that runs the timer out moves a looping
      instance by exactly one frame: there is no catch-up. */
  lemma OneStepPerTick(a: Animation, d: Definition, dt: real)
    requires InBounds(a, d) && a.doesLoop && a.currentFrameTime <= dt
    ensures Tick(a, d, dt).currentFrameIndex == (a.currentFrameIndex + 1) % d.frameCount
  {
    if a.currentFrameIndex + 1 < d.frameCount {
      ModUnique(a.currentFrameIndex + 1, d.frameCount, 0, a.currentFrameIndex + 1);
    } else {
      ModUnique(a.currentFrameIndex + 1, d.frameCount, 1, 0);
    }
  }

  /** A fresh instance has no time left on its timer, so its first tick with
      `dt >= 0` already moves it off frame 0 (when there is a frame 1). */
  lemma FreshAdvancesOnFirstTick(d: Definition, defId: nat, doesLoop: bool, dt: real)
    requires Playable(d) && d.frameCount >= 2 && dt >= 0.0
    ensures Tick(Fresh(defId, doesLoop), d, dt).currentFrameIndex == 1
    ensures Tick(Fresh(defId, doesLoop), d, dt).currentFrameTime == d.frames[1].duration
  {
  }

  /** Three frames of 0.1 s, looping, ticked three times by 0.05 s: the first
      tick already moves to frame 1 and reloads 0.1, the second leaves 0.05,
      the third runs out and moves to frame 2. */
  lemma HalfFrameTicks(sheet: SheetHandle)
    ensures
      var d := Definition(sheet, [Frame(0.1, 0, 1), Frame(0.1, 0, 2), Frame(0.1, 0, 3)] + ZERO_TABLE[3..], 3);
      && Ticks(Fresh(0, true), d, [0.05]) == Some(Fresh(0, true).(currentFrameIndex := 1, currentFrameTime := 0.1))
      && Ticks(Fresh(0, true), d, [0.05, 0.05]) == Some(Fresh(0, true).(currentFrameIndex := 1, currentFrameTime := 0.05))
      && Ticks(Fresh(0, true), d, [0.05, 0.05, 0.05]) == Some(Fresh(0, true).(currentFrameIndex := 2, currentFrameTime := 0.1))
  {
  }

  /** Creating two instances, destroying the first and creating a third
      hands the third the first one's slot; the second keeps its own. */
  lemma {:induction false} DestroyedSlotIsReused(slots: seq<Animation>, x: Animation, y: Animation, z: Animation)
    requires x.isActive && y.isActive
    ensures
      var a := FirstFree(slots);
      var s1 := Claim(slots, x);
      var b := FirstFree(s1);
      var s2 := Claim(s1, y);
      var s3 := s2[a := s2[a].(isActive := false)];
      && a != b
      && FirstFree(s3) == a
      && Claim(s3, z)[a] == z && Claim(s3, z)[b] == y
  {
    var a := FirstFree(slots);
    var s1 := Claim(slots, x);
    var b := FirstFree(s1);
    var s2 := Claim(s1, y);
    var s3 := s2[a := s2[a].(isActive := false)];
    assert s1[a].isActive;
    assert a < b;
    forall j | 0 <= j < a
      ensures s3[j].isActive
    {
      assert s3[j] == s1[j] == slots[j];
    }
    FirstFreeIsUnique(s3, a);
  }

  /** FirstFree is the only index below which every slot is active and at
      which the pool has an inactive slot or ends. */
  lemma FirstFreeIsUnique(slots: seq<Animation>, k: nat)
    requires k <= |slots|
    requires k < |slots| ==> !slots[k].isActive
    requires forall j :: 0 <= j < k ==> slots[j].isActive
    ensures FirstFree(slots) == k
  {
  }

  /** The engine's guard lets a definition with no frames through (its table
      is all zero). An instance of it steps its index 1, 2, ... on every tick,
      and the sixteenth tick reads frame 16, one past the end of the table. */
  lemma {:induction false} ZeroFrameDefinitionOverruns(d: Definition, defId: nat, doesLoop: bool, dts: seq<real>)
    requires d.frameCount == 0 && d.frames == ZERO_TABLE && |dts| <= MAX_FRAMES
    requires forall i :: 0 <= i < |dts| ==> dts[i] >= 0.0
    ensures |dts| < MAX_FRAMES ==>
      Ticks(Fresh(defId, doesLoop), d, dts) == Some(Fresh(defId, doesLoop).(currentFrameIndex := |dts|))
    ensures |dts| == MAX_FRAMES ==> Ticks(Fresh(defId, doesLoop), d, dts) == None
    decreases |dts|
  {
    if dts != [] {
      var k := |dts|;
      ZeroFrameDefinitionOverruns(d, defId, doesLoop, dts[..k - 1]);
      var b := Fresh(defId, doesLoop).(currentFrameIndex := k - 1);
      assert NextIndex(b.currentFrameIndex, d.frameCount, b.doesLoop) == k;
      if k == MAX_FRAMES {
        assert !TickInRange(b, d, dts[k - 1]);
      }
    }
  }
}
