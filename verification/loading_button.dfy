/** The custom progress button: a three-state machine whose state setter has
    side effects (label, percentage reset), a click rule, an "animate to a
    percentage" request with an idempotence guard, and a per-frame rule for the
    running animation. Rendering, measurement and animator timing are not
    modelled; an animation is the sequence of values its frames report. */
module LoadingButton {
  import opened Results

  datatype ButtonState = Completed | Clicked | Loading

  /** The two texts the button can show: `button_name` and `button_loading`. */
  datatype Label = Inactive | Active

  /** The widget's logical fields: the state, the displayed text and the two
      animation percentages (Floats in the widget, exact reals here). */
  datatype Button = Button(state: ButtonState, textDisplay: Label, current: real, target: real)

  /** An interpolation started by `UpdateProgress`, from `from` to `to`. */
  datatype Animation = Animation(from: real, to: real)

  /** What `UpdateProgress` leaves behind: the button, whether the
      "target reached" listener fired, and the animation it started, if any. */
  datatype Update = Update(button: Button, fired: bool, animation: Option<Animation>)

  /** What one animation frame leaves behind. */
  datatype Frame = Frame(button: Button, fired: bool)

  /** The text each state shows when it is entered. */
  function LabelFor(s: ButtonState): Label
  {
    match s
    case Clicked => Inactive
    case Loading => Active
    case Completed => Inactive
  }

  /** The displayed text matches the state: every setter call restores this. */
  predicate Consistent(b: Button)
  {
    b.textDisplay == LabelFor(b.state)
  }

  /** A freshly constructed button. */
  const Initial: Button := Button(Completed, Inactive, 0.0, 0.0)

  /** Assigning the observable state property: sets the state, the label for
      it, and on entering Completed zeroes both percentages. The observer runs
      on every assignment, including re-assigning the current state. */
  function Enter(b: Button, s: ButtonState): (r: Button)
    ensures r.state == s && Consistent(r)
    ensures s == Completed ==> r.current == 0.0 && r.target == 0.0
    ensures s != Completed ==> r.current == b.current && r.target == b.target
  {
    var labelled := b.(state := s, textDisplay := LabelFor(s));
    if s == Completed then labelled.(current := 0.0, target := 0.0) else labelled
  }

  /** The initial button is exactly what entering Completed produces, and it
      shows the inactive text. */
  lemma InitialIsCompletedEntry(b: Button)
    ensures Initial == Enter(b, Completed)
    ensures Consistent(Initial) && Initial.textDisplay == Inactive
  {
  }

  /** `performClick`: Completed becomes Clicked; any other state is
      re-assigned to itself. */
  function Click(b: Button): (r: Button)
    ensures b.state == Completed ==>
              r.state == Clicked && r.textDisplay == Inactive
              && r.current == b.current && r.target == b.target
    ensures b.state != Completed && Consistent(b) ==> r == b
    ensures Consistent(r)
  {
    Enter(b, if b.state == Completed then Clicked else b.state)
  }

  /** `updateProgress(percentage)`: always moves to Loading; a request for the
      current target only fires the listener, any other request sets the
      target and starts an animation from the current percentage. */
  function UpdateProgress(b: Button, percentage: int): (r: Update)
    ensures r.button.state == Loading && r.button.textDisplay == Active
    ensures r.button.current == b.current
    ensures r.fired <==> percentage as real == b.target
    ensures r.fired ==> r.animation == None && r.button.target == b.target
    ensures !r.fired ==> r.animation == Some(Animation(b.current, percentage as real))
                         && r.button.target == percentage as real
  {
    var loading := Enter(b, Loading);
    if percentage as real == loading.target then
      Update(loading, true, None)
    else
      Update(loading.(target := percentage as real), false,
             Some(Animation(loading.current, percentage as real)))
  }

  /** One animator frame reporting value `v`: the current percentage becomes
      `v`; at 100 or more the button completes (without firing), otherwise the
      listener fires when `v` has caught up with the target. */
  function Tick(b: Button, v: real): (r: Frame)
    ensures v >= 100.0 ==>
              !r.fired && r.button.state == Completed && r.button.textDisplay == Inactive
              && r.button.current == 0.0 && r.button.target == 0.0
    ensures v < 100.0 ==>
              r.button == b.(current := v) && (r.fired <==> v >= b.target)
  {
    var moved := b.(current := v);
    if moved.current >= 100.0 then
      Frame(Enter(moved, Completed), false)
    else
      Frame(moved, moved.current >= moved.target)
  }

  /** Result of feeding a sequence of frames: the final button and how many
      times the listener fired. */
  datatype Run = Run(button: Button, fires: nat)

  /** Feeds the frames of an animation, in order, to `Tick`. */
  function Animate(b: Button, frames: seq<real>): (r: Run)
    decreases |frames|
  {
    if |frames| == 0 then Run(b, 0)
    else
      var f := Tick(b, frames[0]);
      var rest := Animate(f.button, frames[1..]);
      Run(rest.button, rest.fires + (if f.fired then 1 else 0))
  }

  /** Number of frame values at or above `target` (the frames that reach it). */
  function CountReaching(frames: seq<real>, target: real): nat
  {
    if |frames| == 0 then 0
    else CountReaching(frames[1..], target) + (if frames[0] >= target then 1 else 0)
  }

  predicate AllBelowFull(frames: seq<real>)
  {
    forall i :: 0 <= i < |frames| ==> frames[i] < 100.0
  }

  /** An animation that never reaches 100 keeps the state, the label and the
      target; it leaves the last frame's value as the current percentage; and
      it fires the listener once per frame at or above the target. */
  lemma {:induction false} AnimationBelowFullKeepsTarget(b: Button, frames: seq<real>)
    requires AllBelowFull(frames)
    ensures Animate(b, frames).button.state == b.state
    ensures Animate(b, frames).button.textDisplay == b.textDisplay
    ensures Animate(b, frames).button.target == b.target
    ensures Animate(b, frames).button.current == if |frames| == 0 then b.current else frames[|frames| - 1]
    ensures Animate(b, frames).fires == CountReaching(frames, b.target)
    decreases |frames|
  {
    if |frames| > 0 {
      var f := Tick(b, frames[0]);
      assert AllBelowFull(frames[1..]) by {
        forall i | 0 <= i < |frames[1..]| ensures frames[1..][i] < 100.0 {
          assert frames[1..][i] == frames[i + 1];
        }
      }
      AnimationBelowFullKeepsTarget(f.button, frames[1..]);
    }
  }

  /** An animation whose last frame reaches 100 leaves the button Completed
      with the inactive text and both percentages back at 0. */
  lemma {:induction false} AnimationToFullCompletes(b: Button, frames: seq<real>)
    requires |frames| > 0 && frames[|frames| - 1] >= 100.0
    ensures Animate(b, frames).button == Initial
    decreases |frames|
  {
    var f := Tick(b, frames[0]);
    if |frames| > 1 {
      assert frames[1..][|frames[1..]| - 1] == frames[|frames| - 1];
      AnimationToFullCompletes(f.button, frames[1..]);
    }
  }

  /** Frames that stay below `target` until the last one, which is `target`:
      an interpolation that runs up to its end value. */
  predicate RunsUpTo(frames: seq<real>, target: real)
  {
    && |frames| > 0
    && frames[|frames| - 1] == target
    && forall i :: 0 <= i < |frames| - 1 ==> frames[i] < target
  }

  lemma {:induction false} RunUpToReachesOnce(frames: seq<real>, target: real)
    requires RunsUpTo(frames, target)
    ensures CountReaching(frames, target) == 1
    decreases |frames|
  {
    if |frames| > 1 {
      assert RunsUpTo(frames[1..], target) by {
        forall i | 0 <= i < |frames[1..]| - 1 ensures frames[1..][i] < target {
          assert frames[1..][i] == frames[i + 1];
        }
      }
      RunUpToReachesOnce(frames[1..], target);
    }
  }

  /** A request for a new target below 100 whose animation runs up to it ends
      Loading at that target and fires the listener exactly once. */
  lemma PartialAnimationFiresOnce(b: Button, percentage: int, frames: seq<real>)
    requires percentage as real != b.target && percentage < 100
    requires RunsUpTo(frames, percentage as real)
    ensures var u := UpdateProgress(b, percentage);
            var run := Animate(u.button, frames);
            && u.animation.Some?
            && run.fires == 1
            && run.button.state == Loading
            && run.button.current == run.button.target == percentage as real
  {
    var u := UpdateProgress(b, percentage);
    assert AllBelowFull(frames);
    AnimationBelowFullKeepsTarget(u.button, frames);
    RunUpToReachesOnce(frames, percentage as real);
  }

  /** `UpdateProgress(100)` followed by an animation that runs up to 100
      completes the button and never fires the listener. */
  lemma FullRequestCompletesSilently(b: Button, frames: seq<real>)
    requires b.target != 100.0
    requires RunsUpTo(frames, 100.0)
    ensures var u := UpdateProgress(b, 100);
            u.animation == Some(Animation(b.current, 100.0)) && Animate(u.button, frames) == Run(Initial, 0)
  {
    FullRunSilent(UpdateProgress(b, 100).button, frames);
  }

  lemma {:induction false} FullRunSilent(b: Button, frames: seq<real>)
    requires b.target == 100.0
    requires RunsUpTo(frames, 100.0)
    ensures Animate(b, frames) == Run(Initial, 0)
    decreases |frames|
  {
    if |frames| > 1 {
      assert RunsUpTo(frames[1..], 100.0) by {
        forall i | 0 <= i < |frames[1..]| - 1 ensures frames[1..][i] < 100.0 {
          assert frames[1..][i] == frames[i + 1];
        }
      }
      FullRunSilent(Tick(b, frames[0]).button, frames[1..]);
    }
  }

  /** Repeating a request right away (no frame in between) starts nothing,
      changes nothing, and only fires the listener. */
  lemma RepeatedRequestOnlyFires(b: Button, percentage: int)
    ensures var first := UpdateProgress(b, percentage);
            var second := UpdateProgress(first.button, percentage);
            second.fired && second.animation == None && second.button == first.button
  {
  }

  /** Requesting 0 from a button that has just completed only fires the listener. */
  lemma ZeroRequestAfterCompletionOnlyFires(b: Button)
    ensures var u := UpdateProgress(Enter(b, Completed), 0);
            u.fired && u.animation == None && u.button.current == 0.0 && u.button.target == 0.0
  {
  }

  /** Every operation keeps the displayed text in step with the state. */
  lemma {:induction false} AnimationKeepsConsistent(b: Button, frames: seq<real>)
    requires Consistent(b)
    ensures Consistent(Animate(b, frames).button)
    decreases |frames|
  {
    if |frames| > 0 {
      AnimationKeepsConsistent(Tick(b, frames[0]).button, frames[1..]);
    }
  }
}
