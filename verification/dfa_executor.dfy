/** The simulator (core/dfa/DFAExecutor.ts): runs the automaton on an input
    string and records one trace step per consumed symbol. */
module DfaExecutor {
  import opened Wrappers
  import opened DfaTypes
  import opened Dfa
  import opened InputValidation
  import opened Collections

  // ----- Traces -----

  /** Step `k` (k >= 1) follows `prev`: it consumed `input[k - 1]` through
      the first transition leaving `prev`'s state on that symbol, and stands
      in that transition's target, which exists. */
  predicate Follows(d: Definition, input: string, prev: ExecutionStep, step: ExecutionStep, k: nat)
    requires 1 <= k <= |input|
  {
    match GetTransitionForSymbol(d.transitions, prev.currentState, [input[k - 1]])
    case None => false
    case Some(t) =>
      && HasState(d.states, t.to)
      && step == ExecutionStep(k, t.to, input[k..], Some(input[k - 1]), Some(t.id))
  }

  /** A trace over `input` from the state with id `start`: step 0 stands in
      `start` with the whole input left, and every later step follows its
      predecessor. */
  predicate IsTrace(d: Definition, input: string, start: string, steps: seq<ExecutionStep>) {
    && 1 <= |steps| <= |input| + 1
    && steps[0] == ExecutionStep(0, start, input, None, None)
    && forall k :: 1 <= k < |steps| ==> Follows(d, input, steps[k - 1], steps[k], k)
  }

  /** The state object the simulator holds at the end of `steps`: the initial
      state object itself before any symbol is consumed, afterwards the first
      state carrying the last step's id. */
  function Holder(d: Definition, start: State, steps: seq<ExecutionStep>): State {
    if |steps| <= 1 then start
    else match GetState(d.states, steps[|steps| - 1].currentState)
      case Some(s) => s
      case None => start
  }

  /** Why a trace cannot be extended by the next input symbol: no transition
      leaves the current state on it (the error names the state's label), or
      the first one that does points at a missing state. */
  predicate Blocked(d: Definition, input: string, steps: seq<ExecutionStep>, holder: State, e: ExecutionError)
    requires 1 <= |steps| <= |input|
  {
    var n := |steps| - 1;
    match GetTransitionForSymbol(d.transitions, steps[n].currentState, [input[n]])
    case None => e == Stuck(holder.labelText, input[n])
    case Some(t) => !HasState(d.states, t.to) && e == DanglingTarget(t.to)
  }

  /** The held state carries the id the trace ends in. */
  lemma HolderStandsAtEnd(d: Definition, input: string, start: State, steps: seq<ExecutionStep>)
    requires IsTrace(d, input, start.id, steps)
    ensures Holder(d, start, steps).id == steps[|steps| - 1].currentState
  {
    var n := |steps| - 1;
    if n > 0 {
      assert Follows(d, input, steps[n - 1], steps[n], n);
    }
  }

  /** Step `k` of a trace has consumed exactly the first `k` symbols, and
      after step 0 it stands in a state that exists. */
  lemma StepOfTrace(d: Definition, input: string, start: string, steps: seq<ExecutionStep>, k: nat)
    requires IsTrace(d, input, start, steps) && k < |steps|
    ensures steps[k].remainingInput == input[k..]
    ensures k > 0 ==> HasState(d.states, steps[k].currentState)
  {
    if k > 0 {
      assert Follows(d, input, steps[k - 1], steps[k], k);
    }
  }

  /** Extending a trace by the step the simulator records keeps it a trace
      and makes the target the held state. */
  lemma ExtendTrace(d: Definition, input: string, start: State, cur: State, steps: seq<ExecutionStep>,
                    t: Transition, next: State)
    requires IsTrace(d, input, start.id, steps) && cur == Holder(d, start, steps)
    requires |steps| <= |input|
    requires GetTransitionForSymbol(d.transitions, cur.id, [input[|steps| - 1]]) == Some(t)
    requires GetState(d.states, t.to) == Some(next)
    ensures var i := |steps| - 1;
      var steps' := steps + [ExecutionStep(i + 1, next.id, input[i + 1..], Some(input[i]), Some(t.id))];
      IsTrace(d, input, start.id, steps') && next == Holder(d, start, steps')
  {
    var i := |steps| - 1;
    var steps' := steps + [ExecutionStep(i + 1, next.id, input[i + 1..], Some(input[i]), Some(t.id))];
    HolderStandsAtEnd(d, input, start, steps);
    assert Follows(d, input, steps'[i], steps'[i + 1], i + 1);
    forall k | 1 <= k < |steps'|
      ensures Follows(d, input, steps'[k - 1], steps'[k], k)
    {
      if k <= i {
        assert steps'[k - 1] == steps[k - 1] && steps'[k] == steps[k];
      }
    }
  }

  /** The simulation loop from the end of the trace `steps`, holding `cur`:
      it only ever appends steps, and stops without error exactly when the
      whole input is consumed. That what it appends is a trace, where it
      stops, and the verdict, are `RunVerdict`. */
  function Run(d: Definition, input: string, start: State, cur: State, steps: seq<ExecutionStep>)
    : (r: ExecutionResult)
    requires 1 <= |steps| <= |input| + 1
    requires cur.id == steps[|steps| - 1].currentState
    ensures |steps| <= |r.steps| <= |input| + 1 && r.steps[..|steps|] == steps
    ensures r.error.None? <==> |r.steps| == |input| + 1
    decreases |input| + 1 - |steps|
  {
    var i := |steps| - 1;
    if i == |input| then ExecutionResult(IsAcceptingState(cur), steps, Some(cur.id), None)
    else
      var symbol := input[i];
      match GetTransitionForSymbol(d.transitions, cur.id, [symbol])
      case None => ExecutionResult(false, steps, Some(cur.id), Some(Stuck(cur.labelText, symbol)))
      case Some(t) =>
        match GetState(d.states, t.to)
        case None => ExecutionResult(false, steps, Some(cur.id), Some(DanglingTarget(t.to)))
        case Some(next) =>
          var steps' := steps + [ExecutionStep(i + 1, next.id, input[i + 1..], Some(symbol), Some(t.id))];
          var r := Run(d, input, start, next, steps');
          PrefixOfPrefix(r.steps, steps', steps);
          r
  }

  /** What the loop builds from a trace is a trace. Its verdict: a complete
      trace is accepted exactly when the state held at its end is accepting;
      a trace cut short is rejected, and its error says why the next symbol
      could not be consumed. */
  lemma {:induction false} RunVerdict(d: Definition, input: string, start: State, cur: State,
                                      steps: seq<ExecutionStep>)
    requires IsTrace(d, input, start.id, steps)
    requires cur == Holder(d, start, steps)
    ensures (HolderStandsAtEnd(d, input, start, steps);
      var r := Run(d, input, start, cur, steps);
      && IsTrace(d, input, start.id, r.steps)
      && r.finalState == Some(Holder(d, start, r.steps).id)
      && (r.error.None? ==> r.accepted == IsAcceptingState(Holder(d, start, r.steps)))
      && (r.error.Some? ==> !r.accepted && |r.steps| <= |input|
                            && Blocked(d, input, r.steps, Holder(d, start, r.steps), r.error.value)))
    decreases |input| + 1 - |steps|
  {
    var i := |steps| - 1;
    HolderStandsAtEnd(d, input, start, steps);
    if i < |input| {
      match GetTransitionForSymbol(d.transitions, cur.id, [input[i]])
      case None =>
      case Some(t) =>
        match GetState(d.states, t.to)
        case None =>
        case Some(next) =>
          var steps' := steps + [ExecutionStep(i + 1, next.id, input[i + 1..], Some(input[i]), Some(t.id))];
          ExtendTrace(d, input, start, cur, steps, t, next);
          RunVerdict(d, input, start, next, steps');
    }
  }

  /** What a simulation from `start` yields: a trace whose final state is
      its last step's, complete exactly when there is no error; a complete
      trace is accepted exactly when the state held at its end is accepting,
      and one cut short is rejected with the error saying why. */
  predicate Simulated(d: Definition, input: string, start: State, r: ExecutionResult) {
    && IsTrace(d, input, start.id, r.steps)
    && r.finalState == Some(r.steps[|r.steps| - 1].currentState)
    && (r.error.None? <==> |r.steps| == |input| + 1)
    && (r.error.None? ==> r.accepted == IsAcceptingState(Holder(d, start, r.steps)))
    && (r.error.Some? ==> !r.accepted && |r.steps| <= |input|
                          && Blocked(d, input, r.steps, Holder(d, start, r.steps), r.error.value))
  }

  /** The step loop of `execute`, started in `start` with the whole input
      left. */
  function Simulate(d: Definition, input: string, start: State): (r: ExecutionResult)
    ensures Simulated(d, input, start, r)
  {
    var s0 := [ExecutionStep(0, start.id, input, None, None)];
    var r := Run(d, input, start, start, s0);
    RunVerdict(d, input, start, start, s0);
    HolderStandsAtEnd(d, input, start, r.steps);
    r
  }

  /** `execute`: without an initial state, or with an input symbol outside
      the alphabet (the leftmost one is reported), there is no trace at all.
      Otherwise the result is the longest trace from the first initial state:
      complete (one step per symbol plus the initial one) and accepted
      exactly when the state it ends in is accepting, or cut short where the
      automaton is stuck or points at a missing state, and then rejected. */
  function Execute(d: Definition, input: string): (r: ExecutionResult)
    ensures r.accepted ==> r.error.None?
    ensures GetInitialState(d.states).None? ==> r == ExecutionResult(false, [], None, Some(NoStartState))
    ensures GetInitialState(d.states).Some? && FirstForeignIndex(input, d.alphabet).Some? ==>
      var k := FirstForeignIndex(input, d.alphabet).value;
      r == ExecutionResult(false, [], None, Some(SymbolOutsideAlphabet(input[k], d.alphabet)))
    ensures GetInitialState(d.states).Some? && FirstForeignIndex(input, d.alphabet).None? ==>
      Simulated(d, input, GetInitialState(d.states).value, r)
  {
    match GetInitialState(d.states)
    case None => ExecutionResult(false, [], None, Some(NoStartState))
    case Some(start) =>
      match FirstForeignIndex(input, d.alphabet)
      case Some(k) => ExecutionResult(false, [], None, Some(SymbolOutsideAlphabet(input[k], d.alphabet)))
      case None => Simulate(d, input, start)
  }

  /** Two traces over the same input from the same state agree on every
      step both have. */
  lemma {:induction false} TracesAgreeAt(d: Definition, input: string, start: string,
                                         a: seq<ExecutionStep>, b: seq<ExecutionStep>, k: nat)
    requires IsTrace(d, input, start, a) && IsTrace(d, input, start, b)
    requires k < |a| && k < |b|
    ensures a[k] == b[k]
    decreases k
  {
    if k > 0 {
      TracesAgreeAt(d, input, start, a, b, k - 1);
      assert Follows(d, input, a[k - 1], a[k], k);
      assert Follows(d, input, b[k - 1], b[k], k);
    }
  }

  /** Traces are determined by the automaton: of two traces over the same
      input from the same state, the shorter is a prefix of the longer. */
  lemma TraceIsDetermined(d: Definition, input: string, start: string,
                          a: seq<ExecutionStep>, b: seq<ExecutionStep>)
    requires IsTrace(d, input, start, a) && IsTrace(d, input, start, b)
    requires |a| <= |b|
    ensures a == b[..|a|]
  {
    forall k | 0 <= k < |a|
      ensures a[k] == b[k]
    {
      TracesAgreeAt(d, input, start, a, b, k);
    }
  }

  // ----- Reference semantics -----

  /** The extended transition function, in the simulator's terms: from `q`,
      consume `w` symbol by symbol through the first matching transition;
      `None` when some step has no transition or a missing target. */
  function DeltaStar(d: Definition, q: State, w: string): Option<State>
    decreases |w|
  {
    if |w| == 0 then Some(q)
    else match GetTransitionForSymbol(d.transitions, q.id, [w[0]])
      case None => None
      case Some(t) =>
        match GetState(d.states, t.to)
        case None => None
        case Some(next) => DeltaStar(d, next, w[1..])
  }

  /** The loop computes the extended transition function on the input it
      has left. */
  lemma {:induction false} RunIsDeltaStar(d: Definition, input: string, start: State, cur: State,
                                          steps: seq<ExecutionStep>)
    requires 1 <= |steps| <= |input| + 1
    requires cur.id == steps[|steps| - 1].currentState
    ensures var r := Run(d, input, start, cur, steps);
      var q := DeltaStar(d, cur, input[|steps| - 1..]);
      && (r.error.None? <==> q.Some?)
      && (q.Some? ==> r.accepted == IsAcceptingState(q.value))
    decreases |input| + 1 - |steps|
  {
    var i := |steps| - 1;
    if i < |input| {
      var w := input[i..];
      assert w[0] == input[i] && w[1..] == input[i + 1..];
      match GetTransitionForSymbol(d.transitions, cur.id, [input[i]])
      case None =>
      case Some(t) =>
        match GetState(d.states, t.to)
        case None =>
        case Some(next) =>
          var steps' := steps + [ExecutionStep(i + 1, next.id, input[i + 1..], Some(input[i]), Some(t.id))];
          RunIsDeltaStar(d, input, start, next, steps');
    }
  }

  /** `accepts`: the verdict of a full simulation. */
  function Accepts(d: Definition, input: string): (r: bool)
    ensures r ==> Execute(d, input).error.None? && |Execute(d, input).steps| == |input| + 1
  {
    Execute(d, input).accepted
  }

  /** The language the simulator decides: an input is accepted exactly when
      there is an initial state, every symbol is in the alphabet, and the
      extended transition function leads from the first initial state to an
      accepting state. */
  lemma AcceptsIsDeltaStar(d: Definition, input: string)
    ensures Accepts(d, input) <==>
      && GetInitialState(d.states).Some?
      && (forall i :: 0 <= i < |input| ==> InAlphabet(input[i], d.alphabet))
      && var q := DeltaStar(d, GetInitialState(d.states).value, input);
         q.Some? && IsAcceptingState(q.value)
  {
    match GetInitialState(d.states)
    case None =>
    case Some(start) =>
      if FirstForeignIndex(input, d.alphabet).None? {
        var s0 := [ExecutionStep(0, start.id, input, None, None)];
        assert input[0..] == input;
        RunIsDeltaStar(d, input, start, start, s0);
      }
  }

  /** `getStepCount`: the initial step plus one per input symbol. */
  function GetStepCount(input: string): (r: nat)
    ensures r == |input| + 1
  {
    |input| + 1
  }

  /** The step count is the length of a complete trace; a simulation that
      stops early records fewer steps. */
  lemma StepCountBoundsTrace(d: Definition, input: string)
    ensures Execute(d, input).error.None? ==> |Execute(d, input).steps| == GetStepCount(input)
    ensures |Execute(d, input).steps| <= GetStepCount(input)
  {
  }

  // ----- Truncated runs -----

  /** The end position `Array.prototype.slice(0, end)` uses on a sequence
      of length `len`: a negative end counts from the back, and the result
      is clamped to [0, len]. */
  function SliceEnd(len: nat, end: int): (r: nat)
    ensures r <= len
    ensures 0 <= end ==> r == if end <= len then end else len
    ensures end < 0 ==> r + (-end) == len || (r == 0 && len < -end)
  {
    if end < 0 then (if len + end < 0 then 0 else len + end)
    else if end <= len then end
    else len
  }

  /** Reading the last step of an empty slice throws (a TypeError on
      `undefined`). */
  datatype TruncationError = NoStepInSlice

  /** `executeUpToStep`: a failed simulation is returned unchanged;
      otherwise the trace is cut to its first `targetStep + 1` steps (with
      JavaScript slice semantics), the final state is the last kept step's,
      and the verdict is accepting only when that step has no input left and
      its state (looked up by id) is accepting. */
  function ExecuteUpToStep(d: Definition, input: string, targetStep: int)
    : (r: Result<ExecutionResult, TruncationError>)
    ensures Execute(d, input).error.Some? ==> r == Ok(Execute(d, input))
    ensures Execute(d, input).error.None? ==>
      var full := Execute(d, input);
      var n := SliceEnd(|full.steps|, targetStep + 1);
      && (r.Err? <==> n == 0)
      && (r.Ok? ==> r.value.steps == full.steps[..n] && r.value.error.None?
                    && r.value.finalState == Some(full.steps[n - 1].currentState))
  {
    var full := Execute(d, input);
    if full.error.Some? then Ok(full)
    else
      var steps := full.steps[..SliceEnd(|full.steps|, targetStep + 1)];
      if |steps| == 0 then Err(NoStepInSlice)
      else
        var last := steps[|steps| - 1];
        var accepting := match GetState(d.states, last.currentState)
          case Some(s) => IsAcceptingState(s)
          case None => false;
        Ok(ExecutionResult(accepting && last.remainingInput == [], steps, Some(last.currentState), None))
  }

  lemma HolderIsLookup(d: Definition, start: State, steps: seq<ExecutionStep>)
    requires |steps| == 1 ==> UniqueStateIds(d.states) && start in d.states
    requires |steps| >= 1
    requires |steps| > 1 ==> HasState(d.states, steps[|steps| - 1].currentState)
    requires |steps| == 1 ==> steps[0].currentState == start.id
    ensures GetState(d.states, steps[|steps| - 1].currentState) == Some(Holder(d, start, steps))
  {
    if |steps| == 1 {
      var s := GetState(d.states, start.id).value;
      var i :| 0 <= i < |d.states| && d.states[i] == start;
      var j :| 0 <= j < |d.states| && d.states[j] == s;
      assert d.states[i].id == d.states[j].id;
    }
  }

  /** Truncating at or beyond the last step changes nothing: the result is
      the full simulation. For the empty input this needs the initial state
      to be the first state carrying its id, which unique ids guarantee. */
  lemma UpToEndIsExecute(d: Definition, input: string, targetStep: int)
    requires UniqueStateIds(d.states) || |input| > 0
    requires targetStep >= |input|
    ensures ExecuteUpToStep(d, input, targetStep) == Ok(Execute(d, input))
  {
    var full := Execute(d, input);
    if full.error.None? {
      var start := GetInitialState(d.states).value;
      var steps := full.steps;
      assert Simulated(d, input, start, full);
      assert |steps| == |input| + 1;
      assert SliceEnd(|steps|, targetStep + 1) == |steps|;
      assert steps[..|steps|] == steps;
      var last := steps[|steps| - 1];
      StepOfTrace(d, input, start.id, steps, |steps| - 1);
      assert last.remainingInput == [];
      HolderIsLookup(d, start, steps);
      assert GetState(d.states, last.currentState) == Some(Holder(d, start, steps));
      assert full == ExecutionResult(IsAcceptingState(Holder(d, start, steps)), steps, Some(last.currentState), None);
    }
  }

  /** Why the empty input needs unique ids: the simulator judges the
      initial state object, the truncation looks the id up again and finds
      an earlier state that shares it. */
  lemma SharedIdSplitsVerdicts()
    ensures var p := Position(Finite(0.0), Finite(0.0));
      var d := Definition([State("q", "a", Accepting, p), State("q", "b", Initial, p)], [], ["0"],
                          Metadata("", "", "", ""));
      !Execute(d, "").accepted && ExecuteUpToStep(d, "", 0) == Ok(Execute(d, "").(accepted := true))
  {
    var p := Position(Finite(0.0), Finite(0.0));
    var d := Definition([State("q", "a", Accepting, p), State("q", "b", Initial, p)], [], ["0"],
                        Metadata("", "", "", ""));
    assert GetInitialState(d.states) == Some(d.states[1]);
    assert GetState(d.states, "q") == Some(d.states[0]);
  }

  /** A trace cut before the end of the input is never accepted, even when
      it stands in an accepting state. */
  lemma TruncatedRunIsNotAccepted(d: Definition, input: string, targetStep: int)
    requires targetStep < |input|
    requires ExecuteUpToStep(d, input, targetStep).Ok?
    requires Execute(d, input).error.None?
    ensures !ExecuteUpToStep(d, input, targetStep).value.accepted
  {
    var full := Execute(d, input);
    var n := SliceEnd(|full.steps|, targetStep + 1);
    StepOfTrace(d, input, GetInitialState(d.states).value.id, full.steps, n - 1);
  }
}
