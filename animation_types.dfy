/** Records and constants of the animation subsystem: frames, definitions
    (templates) and playback instances, with the engine's fixed-width integer
    bounds written out. */
module AnimationTypes {

  /** Fixed capacity of a definition's frame table. */
  const MAX_FRAMES: nat := 16

  /** An unsigned 8-bit integer. */
  type U8 = x: int | 0 <= x < 256

  /** A sprite sheet owned by the renderer; the animation code only carries it along. */
  type SheetHandle = nat

  datatype Option<T> = None | Some(value: T)

  /** One cell of a sprite sheet shown for `duration` seconds. */
  datatype Frame = Frame(duration: real, row: U8, column: U8)

  /** The all-zero frame a zero-initialised record holds. */
  const ZERO_FRAME: Frame := Frame(0.0, 0, 0)

  /** The fixed-size frame array of a definition: always MAX_FRAMES entries,
      of which only the first `frameCount` are meaningful. */
  type FrameTable = s: seq<Frame> | |s| == MAX_FRAMES witness seq(16, _ => Frame(0.0, 0, 0))

  const ZERO_TABLE: FrameTable := seq(MAX_FRAMES, _ => ZERO_FRAME)

  /** An animation template. */
  datatype Definition = Definition(sheet: SheetHandle, frames: FrameTable, frameCount: U8)

  /** A playback instance. It names its definition by index into the
      definition store, never by reference. */
  datatype Animation = Animation(
    definitionId: nat,
    currentFrameTime: real,
    currentFrameIndex: U8,
    doesLoop: bool,
    isActive: bool,
    isFlipped: bool)

  /** A definition that has at least one frame and fits its table. */
  predicate Playable(d: Definition) {
    1 <= d.frameCount <= MAX_FRAMES
  }

  /** The instance's index points at one of its definition's real frames. */
  predicate InBounds(a: Animation, d: Definition) {
    Playable(d) && a.currentFrameIndex < d.frameCount
  }
}
