/**
 * The onboarding tutorial: six screens shown one at a time, a Next button
 * that moves forward and finishes on the last screen, a Back button from the
 * second screen on, a "Create Your First Room" button on the last screen, a
 * Skip button everywhere, and a row of six progress dots.
 */
module Onboarding {
  import opened Wrappers

  /** The screens, in order. */
  datatype Screen = Welcome | RoomCreation | Encryption | SelfDestruct | Share | Anonymous

  const LastStep: nat := 5

  /** The number of `true` entries of `s`. */
  function CountTrue(s: seq<bool>): (n: nat)
    ensures n <= |s|
    decreases |s|
  {
    if s == [] then 0 else (if s[0] then 1 else 0) + CountTrue(s[1..])
  }

  /** A sequence of flags with exactly one set, at `k`, counts one. */
  lemma {:induction false} CountTrueSingle(s: seq<bool>, k: nat)
    requires k < |s| && forall i | 0 <= i < |s| :: s[i] <==> i == k
    ensures CountTrue(s) == 1
    decreases |s|
  {
    if k == 0 {
      CountTrueNone(s[1..]);
    } else {
      CountTrueSingle(s[1..], k - 1);
    }
  }

  lemma {:induction false} CountTrueNone(s: seq<bool>)
    requires forall i | 0 <= i < |s| :: !s[i]
    ensures CountTrue(s) == 0
    decreases |s|
  {
    if s != [] {
      CountTrueNone(s[1..]);
    }
  }

  /** The tutorial's state: the current step, and how many times it has
      called its completion callback. */
  class OnboardingFlow {
    var step: int
    var completions: nat

    predicate Valid()
      reads this
    {
      0 <= step <= LastStep
    }

    constructor()
      ensures Valid() && step == 0 && completions == 0
    {
      step := 0;
      completions := 0;
    }

    /** Next: forward one screen, or complete on the last one. */
    method NextStep()
      requires Valid()
      modifies this
      ensures Valid()
      ensures old(step) < LastStep ==> step == old(step) + 1 && completions == old(completions)
      ensures old(step) == LastStep ==> step == old(step) && completions == old(completions) + 1
    {
      if step < LastStep {
        step := step + 1;
      } else {
        completions := completions + 1;
      }
    }

    /** Back: one screen back, nothing on the first one. */
    method PrevStep()
      requires Valid()
      modifies this
      ensures Valid() && completions == old(completions)
      ensures old(step) > 0 ==> step == old(step) - 1
      ensures old(step) == 0 ==> step == 0
    {
      if step > 0 {
        step := step - 1;
      }
    }

    /** Skip, or "Create Your First Room": complete without moving. */
    method Complete()
      requires Valid()
      modifies this
      ensures Valid() && step == old(step) && completions == old(completions) + 1
    {
      completions := completions + 1;
    }

    /** The screen of the current step; none for a step outside 0..5. */
    function RenderStep(): (r: Option<Screen>)
      reads this
      ensures r.Some? <==> 0 <= step <= LastStep
      ensures step == 0 ==> r == Some(Welcome)
      ensures step == LastStep ==> r == Some(Anonymous)
    {
      if step == 0 then Some(Welcome)
      else if step == 1 then Some(RoomCreation)
      else if step == 2 then Some(Encryption)
      else if step == 3 then Some(SelfDestruct)
      else if step == 4 then Some(Share)
      else if step == 5 then Some(Anonymous)
      else None
    }

    predicate ShowBack()
      reads this
    {
      step > 0
    }

    predicate ShowCreateButton()
      reads this
    {
      step == LastStep
    }

    /** The six progress dots, the one of the current step highlighted. */
    function Dots(): (d: seq<bool>)
      reads this
      ensures |d| == LastStep + 1
    {
      var current := step;
      seq(LastStep + 1, idx => idx == current)
    }

    /** In a valid state exactly one dot is highlighted, the current step's. */
    lemma OneDotHighlighted()
      requires Valid()
      ensures CountTrue(Dots()) == 1 && Dots()[step]
    {
      var d := Dots();
      assert forall i | 0 <= i < |d| :: d[i] <==> i == step;
      CountTrueSingle(d, step);
    }

    /** Distinct steps render distinct screens. */
    lemma RenderStepInjective(other: OnboardingFlow)
      requires Valid() && other.Valid()
      ensures RenderStep() == other.RenderStep() <==> step == other.step
    {
    }
  }
}
