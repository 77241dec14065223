# Animation subsystem of engine-from-scratch, in Dafny

This project models the sprite-animation core of the engine, plus the part of the game loop that uses it:

- **Definition registry.** An append-only store of animation templates. Each template has a sprite sheet, a fixed table of `MAX_FRAMES` = 16 frames (duration, row, column) and a frame count.
- **Instance pool.** Playback instances are kept in slots. Creation reuses the lowest inactive slot, or appends a slot when every slot is active, and resets the chosen slot. Destruction only clears the slot's active flag.
- **Frame-advance state machine.** Each tick it runs over every slot, active or not. It subtracts `dt` from the timer. When the timer is at or below zero, the index takes exactly one step: it wraps to 0 for a looping animation and holds the last frame otherwise. The timer is then reloaded from the new frame's duration.
- **Game-loop use.** The player's walk and idle animations are defined and created. Each frame the player's animation is chosen from its horizontal velocity. The render loop turns every active, animated entity into a draw call showing its instance's current frame, and updates the instance's facing flag from the velocity.

Files:

- `animation_types.dfy` (module `AnimationTypes`): the records of `animation.h` and the 8-bit bound of `types.h`.
- `animation_system.dfy` (module `AnimationSystem`): `animation.c`. The two global stores are the fields `defs` and `slots` of the class `AnimationStore`. The operations are its methods. Each state change is tied to pure functions (`Tick`, `FirstFree`, `Claim`), and the lemmas are stated about those functions.
- `game.dfy` (module `Game`): the parts of `main.c` listed above.

Modelling decisions:

- An instance names its definition by index (`definitionId`), as `animation.h:21` declares. It does not hold a pointer, as `animation.c:55` does. Definitions are never removed, so the index stays valid after later appends; `DefCreate` keeps `Valid()`, which checks exactly this. A pointer could dangle once the store grew.
- `animation_def_create` follows its definition in `animation.c:15`, which takes three arrays. Its declaration at `animation.h:30` differs from that definition.
- Time (`f32` in the engine) is `real`. The `-=` and the `<= 0` test are kept as written. The index is an 8-bit value, and `NextIndex` computes its `+= 1` and `-= 1` with 8-bit wrap-around.
- A freshly created instance has a zero timer. So, when its definition has at least two frames, its first update with `dt >= 0` already moves it to frame 1 (`FreshAdvancesOnFirstTick`, `HalfFrameTicks`); a one-frame definition stays on frame 0 (`SingleFrameStaysAtZero`). The model follows the code here; it does not hold frame 0 for one frame duration. A leftover negative time is not carried into the next frame: the timer is reloaded with the full duration.
- The fatal "definition not found" exit of `animation_create` is the result `None`, and no slot changes. The `assert` on the frame count is a precondition.
- `animation_destroy` and `animation_get` do no bounds check. With an out-of-range id the engine would write through, or return, the store's not-found result. The model reports not-found instead: `Destroy` returns `false`, `Get` returns `None`, and nothing changes.

## Model

| member | source | states |
|---|---|---|
| `AnimationSystem.AnimationStore.constructor` | engine-from-scratch/src/engine/animation/animation.c:10-13 | both stores start empty and valid |
| `AnimationSystem.BuildDefinition` | engine-from-scratch/src/engine/animation/animation.c:15-27 | under the guard `frame_count <= MAX_FRAMES`, frame i for i < count is (durations[i], rows[i], columns[i]); every later table entry is the zero frame; sheet and count are the arguments |
| `AnimationSystem.AnimationStore.DefCreate` | engine-from-scratch/src/engine/animation/animation.c:15-28 | returns the old registry length as the id; the registry grows by exactly one; earlier definitions and all instances are unchanged; the new definition holds the given frames and is zero beyond them; every instance's definition index still resolves |
| `AnimationSystem.FirstFree` | engine-from-scratch/src/engine/animation/animation.c:32-45 | the chosen slot is the lowest inactive one; every slot before it is active; it equals the pool length only when all slots are active |
| `AnimationSystem.FirstFreeIsUnique` | engine-from-scratch/src/engine/animation/animation.c:39-45 | the scan's result is the only index with every earlier slot active and an inactive slot (or the end) at it |
| `AnimationSystem.AnimationStore.FreeSlot` | engine-from-scratch/src/engine/animation/animation.c:32-45 | the free-slot loop returns the lowest inactive slot, or the pool length when all are active |
| `AnimationSystem.Claim` | engine-from-scratch/src/engine/animation/animation.c:47-58 | the pool grows by one exactly when every slot was active, and otherwise keeps its length; the chosen slot holds the new instance; every other slot is untouched |
| `AnimationSystem.AnimationStore.Create` | engine-from-scratch/src/engine/animation/animation.c:31-61 | an unknown definition id gives `None` and changes nothing; otherwise the id is FirstFree of the old pool, and that slot is reset (index 0, timer 0, not flipped, active, the given loop flag and definition id) with all other slots unchanged |
| `AnimationSystem.AnimationStore.Destroy` | engine-from-scratch/src/engine/animation/animation.c:63-66 | clears only that slot's active flag; the length, the other fields and the other slots are unchanged |
| `AnimationSystem.AnimationStore.Get` | engine-from-scratch/src/engine/animation/animation.c:68-70 | yields the slot's instance exactly when the id is in range, and not-found otherwise |
| `AnimationSystem.DestroyedSlotIsReused` | engine-from-scratch/src/engine/animation/animation.c:39-66 | create A, create B, destroy A, create C gives C the slot of A (A != B), and B keeps its slot and contents |
| `AnimationSystem.NextIndex` | engine-from-scratch/src/engine/animation/animation.c:79-87 | below the last frame the index moves up by one; on the last frame it wraps to 0 when looping and holds otherwise; an index below the frame count stays below it |
| `AnimationSystem.Tick` | engine-from-scratch/src/engine/animation/animation.c:74-89 | while `time - dt > 0` only the timer drops by dt; otherwise the index takes exactly one step (+1, wrap to 0, or hold the last frame) and the timer is that frame's duration; definition, loop, active and flip flags never change; an in-bounds index stays in bounds |
| `AnimationSystem.AnimationStore.Update` | engine-from-scratch/src/engine/animation/animation.c:72-92 | every slot, active or not, becomes one Tick of its old value against its own definition; the definitions and the pool length are unchanged; validity is kept |
| `AnimationSystem.TicksStayInBounds` | engine-from-scratch/src/engine/animation/animation.h:23 | from an index inside [0, frame_count), every sequence of ticks, each with its own frame time, keeps the index inside and never reads past the frame table; the loop flag and definition index are kept |
| `AnimationSystem.ClampHoldsLastFrame` | engine-from-scratch/src/engine/animation/animation.c:82-87 | a non-looping instance on frame frame_count-1 stays there under every sequence of ticks, whatever frame times they carry |
| `AnimationSystem.SingleFrameStaysAtZero` | engine-from-scratch/src/main.c:157-159 | a one-frame definition, such as the idle animation, shows frame 0 under every sequence of ticks, whatever frame times they carry |
| `AnimationSystem.LoopingStep` | engine-from-scratch/src/engine/animation/animation.c:76-89 | a looping instance on frame n mod frame_count whose frames all last D, with 0 (at creation) or D left on its timer, moves to frame (n+1) mod frame_count with D loaded after one tick of D |
| `AnimationSystem.LoopingCycles` | engine-from-scratch/src/engine/animation/animation.c:76-89 | a looping instance whose frames all last D, ticked by D from creation, is on frame n mod frame_count after n ticks |
| `AnimationSystem.OneStepPerTick` | engine-from-scratch/src/engine/animation/animation.c:78-84 | however large dt is, a tick that runs a looping timer out moves the index by exactly one, modulo the frame count |
| `AnimationSystem.FreshAdvancesOnFirstTick` | engine-from-scratch/src/engine/animation/animation.c:54-58 | a created instance has timer 0, so, when its definition has at least two frames, its first tick with dt >= 0 moves it to frame 1 and loads frame 1's duration |
| `AnimationSystem.HalfFrameTicks` | engine-from-scratch/src/engine/animation/animation.c:76-89 | three frames of 0.1 s, looping, ticked by 0.05 s: frame 1 with 0.1 left, then frame 1 with 0.05 left, then frame 2 with 0.1 left |
| `AnimationSystem.ZeroFrameDefinitionOverruns` | engine-from-scratch/src/engine/animation/animation.c:16 | with frame_count 0 and any non-negative frame times, the index climbs 1..15 on successive ticks, and the sixteenth tick reads frame 16, past the table |
| `Game.LoadPlayerAnimations` | engine-from-scratch/src/main.c:151-159 | both definitions use the given sprite sheet; the walk definition has 7 frames of 0.1 s at row 0, columns 1..7; the idle definition has 1 frame of duration 0; the walk instance loops and the idle instance does not; they occupy different slots, the walk instance the lowest free one; earlier definitions and every other slot are kept, and the pool grows by at most two; on the empty store that `animation_init` leaves, the definitions are 0 and 1 and the instances slots 0 and 1 |
| `Game.ChooseAnimation` | engine-from-scratch/src/main.c:186-190 | non-zero horizontal velocity selects the walk animation; zero selects the idle animation |
| `Game.Flip` | engine-from-scratch/src/main.c:272-276 | negative velocity sets the flag, positive clears it, zero keeps it |
| `Game.FlipFollowsLastMove` | engine-from-scratch/src/main.c:272-276 | across frames, the flag is set exactly when the last non-zero velocity was negative, and keeps its initial value if the entity never moved |
| `Game.CurrentFrame` | engine-from-scratch/src/main.c:268-270 | the drawn cell is frames[current_frame_index] of the instance's own definition, one of its first frame_count frames |
| `Game.RenderPass` | engine-from-scratch/src/main.c:258-279 | the render loop changes only the facing flag of instances; the pool length and all other fields are kept |
| `Game.RenderPassDrawsDrawable` | engine-from-scratch/src/main.c:258-279 | exactly the active entities with an animation are drawn, in order; inactive entities and those marked "no animation" are never drawn; each draw shows its own instance's current frame from that instance's own definition, at the entity's position, flipped when it moves left and unflipped when it moves right |
| `Game.VelocitiesOfDrawn` | engine-from-scratch/src/main.c:258-265 | skipping inactive and unanimated entities hands every instance the same sequence of velocities as the whole entity list |
| `Game.FlagsFollowNamers` | engine-from-scratch/src/main.c:258-279 | after the render loop every instance's facing is its old facing updated, in entity order, by Flip for each drawable entity naming it |
| `Game.UndrawnKeepsSlot` | engine-from-scratch/src/main.c:258-279 | an instance that no active, animated entity names leaves the render loop entirely unchanged, facing included |
| `Game.DrawCount` | engine-from-scratch/src/main.c:258-279 | the render loop issues exactly one draw per active, animated entity |
| `Game.DrawFacing` | engine-from-scratch/src/main.c:272-278 | each draw is flipped as its instance is after the moves of every drawn entity naming it up to and including this one, so a standing entity draws with the facing its instance already had |
| `Game.RenderAnimated` | engine-from-scratch/src/main.c:258-279 | the imperative loop leaves the pool and emits the draws that RenderPass describes, keeping the store valid |

## Left out

- SDL, the window and event loop, `render_*` calls (the sprite draw is the `DrawCall` value), audio and input: these are I/O.
- Physics and entities are not part of this model. An entity's active flag, its body's x velocity and its position are inputs to the render loop.
- The collision callbacks of `main.c` and random enemy spawning are not part of this model. They are gameplay that uses `rand()` and floats.
- The `Array_List` store is modelled as a Dafny sequence with append and checked get, because its source is not part of this model. The reallocation that makes pointers dangle is represented only by the choice of index links.
- IEEE `f32` arithmetic is not modelled: times and velocities are finite exact reals. Rounding is lost (0.1 - 0.05 - 0.05 is exactly 0 here), and so are NaN and the infinities: a NaN `dt` would leave the timer NaN so that its `<= 0` test never holds again and the animation freezes, and a NaN velocity would select the walk animation yet leave the facing flag unchanged.
- `animation_render` is declared but has no implementation to model.
- The sprite-sheet pointer is an opaque handle; texture slots and tint are not involved in the modelled render call.
- AnimationSystem.AnimationStore.DefCreate: requires at least one frame, which the engine's assert does not; see Findings. `BuildDefinition` keeps the engine's guard as written.
- AnimationSystem.AnimationStore.Destroy: an out-of-range id is reported as not found instead of writing through the store's not-found result.
- Game.RenderAnimated: requires every drawn entity's animation id to be in range; the engine would dereference the not-found result otherwise.

## Findings

| source | as written | input that shows it | evidently intended | confidence | as-written member | corrected member |
|---|---|---|---|---|---|---|
| engine-from-scratch/src/engine/animation/animation.c:16 | `assert(frame_count <= MAX_FRAMES)` admits a definition with zero frames; `animation_update` then never sees `index == frame_count`, so it steps the index 1, 2, ..., 16 and reads `frames[16]` past the 16-entry table | `animation_def_create(sheet, d, r, c, 0)`, `animation_create(id, true)`, then 16 calls `animation_update(dt)` with `dt >= 0` | definitions hold at least one frame (`1 <= frame_count <= MAX_FRAMES`), so the index stays in `[0, frame_count)`, as `TicksStayInBounds` proves | medium; not executed | `AnimationSystem.ZeroFrameDefinitionOverruns` | `AnimationSystem.AnimationStore.DefCreate` |
