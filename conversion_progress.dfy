/** The progress screen: three fixed steps, each shown as active once the
    progress reaches its threshold and as completed once the progress exceeds
    the threshold by more than 30. */
module ConversionProgress {

  datatype ProgressStep = ProgressStep(name: string, threshold: int)

  /** The `steps` array, in display order. */
  const Steps: seq<ProgressStep> := [
    ProgressStep("Analyzing Documents", 0),
    ProgressStep("Converting Format", 40),
    ProgressStep("Preparing Downloads", 80)
  ]

  /** How far past its threshold a step must be to count as completed. */
  const CompletionMargin: int := 30

  /** What the `map` over the steps computes for one step. */
  datatype StepStatus = StepStatus(name: string, isActive: bool, isCompleted: bool)

  /** There are three steps, their thresholds are 0, 40 and 80, strictly
      increasing. */
  lemma StepsShape()
    ensures |Steps| == 3
    ensures Steps[0].threshold == 0 && Steps[1].threshold == 40 && Steps[2].threshold == 80
    ensures forall i, j :: 0 <= i < j < |Steps| ==> Steps[i].threshold < Steps[j].threshold
  {
  }

  predicate IsActive(step: ProgressStep, progress: int)
  {
    progress >= step.threshold
  }

  predicate IsCompleted(step: ProgressStep, progress: int)
  {
    progress > step.threshold + CompletionMargin
  }

  /** The status of every step at `progress`: one per step, in order, with the
      step's name; a completed step is always active; the active steps and the
      completed steps are each a prefix of the list; the first step is active
      for every progress of at least 0, and for a progress of at most 100 the
      last step is never completed. */
  function StepStatuses(progress: int): (r: seq<StepStatus>)
    ensures |r| == |Steps|
    ensures forall i :: 0 <= i < |r| ==> r[i].name == Steps[i].name
    ensures forall i :: 0 <= i < |r| ==> r[i].isCompleted ==> r[i].isActive
    ensures forall i, j :: 0 <= i < j < |r| ==> r[j].isActive ==> r[i].isActive
    ensures forall i, j :: 0 <= i < j < |r| ==> r[j].isCompleted ==> r[i].isCompleted
    ensures progress >= 0 ==> r[0].isActive
    ensures progress <= 100 ==> !r[|r| - 1].isCompleted
  {
    StepsShape();
    seq(|Steps|, i requires 0 <= i < |Steps| =>
      StepStatus(Steps[i].name, IsActive(Steps[i], progress), IsCompleted(Steps[i], progress)))
  }

  /** As the progress grows, no step stops being active or completed. */
  lemma StatusesGrowWithProgress(progress1: int, progress2: int)
    requires progress1 <= progress2
    ensures forall i :: 0 <= i < |Steps| ==>
              (StepStatuses(progress1)[i].isActive ==> StepStatuses(progress2)[i].isActive) &&
              (StepStatuses(progress1)[i].isCompleted ==> StepStatuses(progress2)[i].isCompleted)
  {
  }

  /** The number of active steps. */
  function ActiveCount(progress: int): (n: nat)
    ensures n <= |Steps|
    ensures forall i :: 0 <= i < |Steps| ==> (StepStatuses(progress)[i].isActive <==> i < n)
  {
    StepsShape();
    if progress >= 80 then 3 else if progress >= 40 then 2 else if progress >= 0 then 1 else 0
  }

  /** The progress values the conversion writes: at 0 only the first step is
      active; at 20 the first is active and none completed; at 60 the first two
      are active and the first completed; at 100 all three are active and the
      first two completed. */
  lemma StatusesAtWrittenValues()
    ensures ActiveCount(0) == 1 && ActiveCount(20) == 1 && ActiveCount(60) == 2 && ActiveCount(100) == 3
    ensures !StepStatuses(20)[0].isCompleted
    ensures StepStatuses(60)[0].isCompleted && !StepStatuses(60)[1].isCompleted
    ensures StepStatuses(100)[0].isCompleted && StepStatuses(100)[1].isCompleted
  {
    StepsShape();
  }
}
