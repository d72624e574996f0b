/**
 * The sprite animation of src/game/animation.rs: a list of animations, one
 * per state, the index of the current one, the current frame and a
 * repeating timer whose every completion advances the frame.
 */
module Animations {
  import opened Common
  import opened Timers

  datatype AnimationState = Idling | Walking

  /**
   * One animation: how many frames it has, how long each lasts (in
   * nanoseconds), the state it shows and where its frames start in the
   * texture atlas.
   */
  datatype AnimationData = AnimationData(frames: nat, interval: nat, state: AnimationState, atlasIndex: nat)

  /** `iter().position(|a| a.state == state)`: the first animation for `state`. */
  function FindState(animations: seq<AnimationData>, state: AnimationState): (r: Option<nat>)
    ensures r.None? <==> forall i :: 0 <= i < |animations| ==> animations[i].state != state
    ensures r.Some? ==> r.value < |animations| && animations[r.value].state == state
    ensures r.Some? ==> forall i :: 0 <= i < r.value ==> animations[i].state != state
  {
    if animations == [] then None
    else if animations[0].state == state then Some(0)
    else
      match FindState(animations[1..], state)
      case None => None
      case Some(i) => Some(i + 1)
  }

  class Animation {
    var timer: Timer
    var frame: nat
    var current: nat
    var animations: seq<AnimationData>

    /**
     * `current` names an animation, the timer holds less than one period,
     * and the frame lies inside the current animation (an animation without
     * frames never advances, so it stays at frame 0).
     */
    ghost predicate Valid()
      reads this
    {
      && current < |animations|
      && Timers.Valid(timer)
      && (frame == 0 || frame < animations[current].frames)
    }

    /** `Animation::new`: `animations[0]` panics on an empty list. */
    constructor (animations: seq<AnimationData>)
      requires |animations| > 0
      ensures Valid()
      ensures this.animations == animations && current == 0 && frame == 0
      ensures timer == NewRepeating(animations[0].interval) && !Changed()
    {
      this.animations := animations;
      timer := NewRepeating(animations[0].interval);
      frame := 0;
      current := 0;
    }

    /**
     * `update_timer`: tick the timer; when it finished, advance the frame
     * modulo the current animation's frame count (a remainder by zero
     * panics, so an animation that gets there must have frames).
     */
    method UpdateTimer(delta: nat)
      requires Valid()
      requires Tick(timer, delta).finished ==> animations[current].frames > 0
      modifies this
      ensures Valid()
      ensures animations == old(animations) && current == old(current)
      ensures timer == Tick(old(timer), delta)
      ensures !Changed() ==> frame == old(frame)
      ensures Changed() ==> frame == (old(frame) + 1) % animations[current].frames
    {
      timer := Tick(timer, delta);
      if !timer.finished {
        return;
      }
      frame := (frame + 1) % animations[current].frames;
    }

    /**
     * `update_state`: a new state selects the first animation for it (the
     * `unwrap` panics when there is none), restarts the timer and ticks it
     * by its whole period at once, so the change shows immediately.
     */
    method UpdateState(state: AnimationState)
      requires Valid()
      requires state != State() ==>
        FindState(animations, state).Some? && animations[FindState(animations, state).value].frames > 0
      modifies this
      ensures Valid() && animations == old(animations)
      ensures State() == state
      ensures state == old(State()) ==> timer == old(timer) && frame == old(frame) && current == old(current)
      ensures state != old(State()) ==>
        && current == FindState(animations, state).value
        && timer == Tick(NewRepeating(animations[current].interval), animations[current].interval)
        && Changed() && timer.elapsed == 0
        && frame == 1 % animations[current].frames
    {
      if State() != state {
        current := FindState(animations, state).value;
        var data := animations[current];
        timer := NewRepeating(data.interval);
        frame := 0;
        TickRemaining(timer);
        UpdateTimer(Remaining(timer));
      }
    }

    /** `changed`: whether the last tick finished the timer. */
    predicate Changed()
      reads this
    {
      timer.finished
    }

    function State(): (s: AnimationState)
      reads this
      requires current < |animations|
    {
      animations[current].state
    }

    /**
     * `get_atlas_index`: the sprite shown, which always lies within the
     * current animation's run of frames in the atlas.
     */
    function AtlasIndex(): (r: nat)
      reads this
      requires Valid()
      ensures animations[current].atlasIndex <= r
      ensures animations[current].frames > 0 ==> r < animations[current].atlasIndex + animations[current].frames
    {
      animations[current].atlasIndex + frame
    }
  }

  /** The state `update_animation_movement` asks for: idle without intent, walking otherwise. */
  function MovementState(intentIsZero: bool): (s: AnimationState)
    ensures s == Idling <==> intentIsZero
  {
    if intentIsZero then Idling else Walking
  }

  /** `update_animation_movement` for one character: follow the movement intent. */
  method UpdateAnimationMovement(animation: Animation, intentIsZero: bool)
    requires animation.Valid()
    requires MovementState(intentIsZero) != animation.State() ==>
      var found := FindState(animation.animations, MovementState(intentIsZero));
      found.Some? && animation.animations[found.value].frames > 0
    modifies animation
    ensures animation.Valid() && animation.animations == old(animation.animations)
    ensures animation.State() == Idling <==> intentIsZero
    ensures MovementState(intentIsZero) == old(animation.State()) ==>
      && animation.timer == old(animation.timer)
      && animation.frame == old(animation.frame)
      && animation.current == old(animation.current)
    ensures MovementState(intentIsZero) != old(animation.State()) ==>
      && animation.current == FindState(animation.animations, MovementState(intentIsZero)).value
      && animation.timer == Tick(NewRepeating(animation.animations[animation.current].interval),
                                 animation.animations[animation.current].interval)
      && animation.Changed()
      && animation.frame == 1 % animation.animations[animation.current].frames
  {
    animation.UpdateState(MovementState(intentIsZero));
  }

  /** `update_animation_atlas`: the atlas index follows the animation when it changed. */
  method UpdateAnimationAtlas(animation: Animation, index: nat) returns (newIndex: nat)
    requires animation.Valid()
    ensures animation.Changed() ==> newIndex == animation.AtlasIndex()
    ensures !animation.Changed() ==> newIndex == index
  {
    newIndex := index;
    if animation.Changed() {
      newIndex := animation.AtlasIndex();
    }
  }

  /**
   * `trigger_step_sound_effect`: a step sounds when a walking animation has
   * just moved to frame 2 or 5, so only a walk of at least three frames
   * ever makes a sound.
   */
  method TriggerStepSound(animation: Animation) returns (play: bool)
    requires animation.Valid()
    ensures play <==> animation.State() == Walking && animation.Changed() && animation.frame in {2, 5}
    ensures play ==> animation.animations[animation.current].frames >= 3
  {
    play := animation.State() == Walking && animation.Changed() && (animation.frame == 2 || animation.frame == 5);
  }
}
