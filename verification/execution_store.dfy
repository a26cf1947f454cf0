/** The playback state of a simulation (store/executionStore.ts): the trace
    being shown, the cursor into it, and the play/pause flags. Every action
    is a function from the old store to the new one. */
module ExecutionStore {
  import opened Wrappers
  import opened DfaTypes

  datatype Playback = Playback(
    isExecuting: bool,
    isPaused: bool,
    inputString: string,
    currentStepIndex: int,
    executionResult: Option<ExecutionResult>,
    speed: int)

  const DefaultSpeed: int := 500
  const MinSpeed: int := 100
  const MaxSpeed: int := 2000

  /** The store as created. */
  const Fresh: Playback := Playback(false, false, "", 0, None, DefaultSpeed)

  function StepsOf(p: Playback): nat {
    if p.executionResult.Some? then |p.executionResult.value.steps| else 0
  }

  /** The cursor points at a step of the trace whenever there is a trace
      with steps to point at. */
  predicate CursorInRange(p: Playback) {
    p.executionResult.Some? && |p.executionResult.value.steps| > 0 ==>
      0 <= p.currentStepIndex < |p.executionResult.value.steps|
  }

  predicate SpeedInRange(p: Playback) {
    MinSpeed <= p.speed <= MaxSpeed
  }

  // ----- Getters -----

  /** `getCurrentStep`: the step under the cursor; none without a trace or
      with the cursor outside it (a negative index reads `undefined`). */
  function GetCurrentStep(p: Playback): (r: Option<ExecutionStep>)
    ensures r.Some? <==> p.executionResult.Some? && 0 <= p.currentStepIndex < |p.executionResult.value.steps|
    ensures r.Some? ==> r.value in p.executionResult.value.steps
  {
    if p.executionResult.None? || p.currentStepIndex >= |p.executionResult.value.steps| then None
    else if p.currentStepIndex < 0 then None
    else Some(p.executionResult.value.steps[p.currentStepIndex])
  }

  /** `getTotalSteps`: the trace length, 0 without a trace. */
  function GetTotalSteps(p: Playback): (r: nat)
    ensures p.executionResult.None? ==> r == 0
    ensures p.executionResult.Some? ==> r == |p.executionResult.value.steps|
  {
    StepsOf(p)
  }

  predicate IsAtStart(p: Playback) {
    p.currentStepIndex == 0
  }

  /** `isAtEnd`: the cursor is on (or past) the last step; never without a
      trace. */
  predicate IsAtEnd(p: Playback) {
    p.executionResult.Some? && p.currentStepIndex >= |p.executionResult.value.steps| - 1
  }

  // ----- Setters -----

  function SetInputString(p: Playback, input: string): (r: Playback)
    ensures r == p.(inputString := input)
  {
    p.(inputString := input)
  }

  /** `setExecutionResult` leaves the cursor where it was, even when the new
      trace is shorter. */
  function SetExecutionResult(p: Playback, result: Option<ExecutionResult>): (r: Playback)
    ensures r.executionResult == result
    ensures r.currentStepIndex == p.currentStepIndex
    ensures r == p.(executionResult := result)
  {
    p.(executionResult := result)
  }

  /** `setCurrentStepIndex`: without a trace nothing happens; otherwise the
      cursor moves to `index` clamped into the trace (to 0 for an empty
      trace). Nothing else changes. */
  function SetCurrentStepIndex(p: Playback, index: int): (r: Playback)
    ensures p.executionResult.None? ==> r == p
    ensures r == p.(currentStepIndex := r.currentStepIndex)
    ensures p.executionResult.Some? ==> CursorInRange(r) && r.currentStepIndex >= 0
    ensures p.executionResult.Some? && 0 <= index < StepsOf(p) ==> r.currentStepIndex == index
    ensures p.executionResult.Some? && index >= StepsOf(p) > 0 ==> IsAtEnd(r)
    ensures p.executionResult.Some? && index <= 0 ==> IsAtStart(r)
    ensures p.executionResult.Some? && StepsOf(p) == 0 ==> IsAtStart(r)
  {
    if p.executionResult.None? then p
    else
      var last := |p.executionResult.value.steps| - 1;
      var clamped := if index < last then index else last;
      p.(currentStepIndex := if clamped < 0 then 0 else clamped)
  }

  /** `setSpeed`: the delay is clamped to [100, 2000] milliseconds. */
  function SetSpeed(p: Playback, speed: int): (r: Playback)
    ensures SpeedInRange(r)
    ensures MinSpeed <= speed <= MaxSpeed ==> r.speed == speed
    ensures speed < MinSpeed ==> r.speed == MinSpeed
    ensures speed > MaxSpeed ==> r.speed == MaxSpeed
    ensures r == p.(speed := r.speed)
  {
    var capped := if speed < MaxSpeed then speed else MaxSpeed;
    p.(speed := if capped < MinSpeed then MinSpeed else capped)
  }

  // ----- Execution controls -----

  function StartExecution(p: Playback): (r: Playback)
    ensures r.isExecuting && !r.isPaused && IsAtStart(r)
    ensures r.executionResult == p.executionResult && r.speed == p.speed && r.inputString == p.inputString
  {
    p.(isExecuting := true, isPaused := false, currentStepIndex := 0)
  }

  function PauseExecution(p: Playback): (r: Playback)
    ensures r.isPaused && r == p.(isPaused := true)
  {
    p.(isPaused := true)
  }

  function ResumeExecution(p: Playback): (r: Playback)
    ensures !r.isPaused && r == p.(isPaused := false)
  {
    p.(isPaused := false)
  }

  function StopExecution(p: Playback): (r: Playback)
    ensures !r.isExecuting && !r.isPaused && IsAtStart(r)
    ensures r.executionResult == p.executionResult && r.speed == p.speed && r.inputString == p.inputString
  {
    p.(isExecuting := false, isPaused := false, currentStepIndex := 0)
  }

  /** `reset`: back to the fresh store, except that the speed is kept. */
  function Reset(p: Playback): (r: Playback)
    ensures r == Fresh.(speed := p.speed)
  {
    p.(isExecuting := false, isPaused := false, inputString := "", currentStepIndex := 0, executionResult := None)
  }

  // ----- Step controls -----

  /** `stepForward`: one step on, unless at the end or without a trace. */
  function StepForward(p: Playback): (r: Playback)
    ensures r == p.(currentStepIndex := r.currentStepIndex)
    ensures IsAtEnd(p) || p.executionResult.None? ==> r == p
    ensures !IsAtEnd(p) && p.executionResult.Some? ==> r.currentStepIndex == p.currentStepIndex + 1
  {
    if p.executionResult.None? then p
    else if p.currentStepIndex < |p.executionResult.value.steps| - 1 then
      p.(currentStepIndex := p.currentStepIndex + 1)
    else p
  }

  /** `stepBackward`: one step back unless at (or before) the start; it does
      not look at the trace. */
  function StepBackward(p: Playback): (r: Playback)
    ensures r == p.(currentStepIndex := r.currentStepIndex)
    ensures p.currentStepIndex <= 0 ==> r == p
    ensures p.currentStepIndex > 0 ==> r.currentStepIndex == p.currentStepIndex - 1
  {
    if p.currentStepIndex > 0 then p.(currentStepIndex := p.currentStepIndex - 1) else p
  }

  /** `jumpToStep` is `setCurrentStepIndex`. */
  function JumpToStep(p: Playback, stepIndex: int): (r: Playback)
    ensures p.executionResult.None? ==> r == p
    ensures r == p.(currentStepIndex := r.currentStepIndex)
    ensures p.executionResult.Some? ==> CursorInRange(r) && r.currentStepIndex >= 0
    ensures p.executionResult.Some? && 0 <= stepIndex < StepsOf(p) ==> r.currentStepIndex == stepIndex
    ensures p.executionResult.Some? && stepIndex >= StepsOf(p) > 0 ==> IsAtEnd(r)
    ensures p.executionResult.Some? && (stepIndex <= 0 || StepsOf(p) == 0) ==> IsAtStart(r)
    ensures p.executionResult.Some? && 0 <= stepIndex < StepsOf(p) ==> GetCurrentStep(r) == Some(p.executionResult.value.steps[stepIndex])
  {
    SetCurrentStepIndex(p, stepIndex)
  }

  function GoToStart(p: Playback): (r: Playback)
    ensures IsAtStart(r) && r == p.(currentStepIndex := 0)
  {
    p.(currentStepIndex := 0)
  }

  /** `goToEnd`: the cursor on the last step; with an empty trace that is
      index -1, where there is no current step. */
  function GoToEnd(p: Playback): (r: Playback)
    ensures p.executionResult.None? ==> r == p
    ensures r == p.(currentStepIndex := r.currentStepIndex)
    ensures p.executionResult.Some? ==> IsAtEnd(r)
    ensures p.executionResult.Some? && StepsOf(p) > 0 ==>
      GetCurrentStep(r) == Some(p.executionResult.value.steps[StepsOf(p) - 1])
    ensures p.executionResult.Some? && StepsOf(p) == 0 ==> r.currentStepIndex == -1 && GetCurrentStep(r).None?
  {
    if p.executionResult.Some? then p.(currentStepIndex := |p.executionResult.value.steps| - 1) else p
  }

  // ----- Properties -----

  /** Navigation keeps the cursor on a step of the trace. */
  lemma NavigationKeepsCursorInRange(p: Playback, i: int, input: string)
    requires CursorInRange(p)
    ensures CursorInRange(StepForward(p)) && CursorInRange(StepBackward(p))
    ensures CursorInRange(JumpToStep(p, i)) && CursorInRange(SetCurrentStepIndex(p, i))
    ensures CursorInRange(GoToStart(p)) && CursorInRange(GoToEnd(p))
    ensures CursorInRange(StartExecution(p)) && CursorInRange(StopExecution(p))
    ensures CursorInRange(PauseExecution(p)) && CursorInRange(ResumeExecution(p))
    ensures CursorInRange(Reset(p)) && CursorInRange(SetSpeed(p, i))
    ensures CursorInRange(SetInputString(p, input))
  {
  }

  /** On a trace with steps and an in-range cursor, `isAtStart` puts the
      cursor on the first step and `isAtEnd` exactly on the last one; both
      hold at once only on a one-step trace. */
  lemma AtStartAndEnd(p: Playback)
    requires CursorInRange(p) && p.executionResult.Some? && StepsOf(p) > 0
    ensures IsAtStart(p) ==> GetCurrentStep(p) == Some(p.executionResult.value.steps[0])
    ensures IsAtEnd(p) <==> p.currentStepIndex == StepsOf(p) - 1
    ensures IsAtEnd(p) ==> GetCurrentStep(p) == Some(p.executionResult.value.steps[StepsOf(p) - 1])
    ensures IsAtStart(p) && IsAtEnd(p) <==> StepsOf(p) == 1
  {
  }

  /** With the cursor in range, a trace with steps always has a current
      step. */
  lemma CursorInRangeHasStep(p: Playback)
    requires CursorInRange(p) && StepsOf(p) > 0
    ensures GetCurrentStep(p).Some?
  {
  }

  /** Stepping forward and then back returns to the same step. */
  lemma ForwardThenBack(p: Playback)
    requires p.executionResult.Some? && !IsAtEnd(p) && p.currentStepIndex >= 0
    ensures StepBackward(StepForward(p)) == p
  {
  }

  /** Stepping back and then forward returns to the same step. */
  lemma BackThenForward(p: Playback)
    requires CursorInRange(p) && StepsOf(p) > 0 && p.currentStepIndex > 0
    ensures StepForward(StepBackward(p)) == p
  {
  }

  /** `n` presses of the step-forward control. */
  function Forward(p: Playback, n: nat): Playback
    decreases n
  {
    if n == 0 then p else Forward(StepForward(p), n - 1)
  }

  /** A walk of `n` steps forward advances the cursor by `n` but stops at
      the last step. */
  lemma {:induction false} ForwardWalkReachesEnd(p: Playback, n: nat)
    requires p.executionResult.Some? && StepsOf(p) > 0 && 0 <= p.currentStepIndex
    ensures Forward(p, n).currentStepIndex
         == if p.currentStepIndex + n < StepsOf(p) - 1 then p.currentStepIndex + n
            else if p.currentStepIndex < StepsOf(p) - 1 then StepsOf(p) - 1 else p.currentStepIndex
    ensures p.currentStepIndex + n >= StepsOf(p) - 1 ==> IsAtEnd(Forward(p, n))
    decreases n
  {
    if n > 0 {
      var q := StepForward(p);
      assert StepsOf(q) == StepsOf(p);
      ForwardWalkReachesEnd(q, n - 1);
      assert Forward(p, n) == Forward(q, n - 1);
    }
  }

  /** Replacing the trace with a shorter one leaves the cursor stale: there
      is then no current step until the cursor is moved. */
  lemma StaleCursorAfterNewResult(p: Playback, result: ExecutionResult)
    requires p.currentStepIndex >= |result.steps|
    ensures GetCurrentStep(SetExecutionResult(p, Some(result))).None?
    ensures IsAtEnd(SetExecutionResult(p, Some(result)))
  {
  }
}
