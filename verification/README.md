# DFA editor engine, modelled in Dafny

This project models the engine of a web-based editor and simulator for
deterministic finite automata. It covers:

- **Dfa** (`dfa.dfy`): the automaton record and its editing operations. These
  are the constructor defaults; adding, removing and updating states and
  transitions; replacing the alphabet; the metadata; clearing; and the lookups.
  Every operation is a pure function from a definition to a new definition, or
  to an error when the source throws. Every check runs before any change, so a
  rejected call leaves the old definition as it was.
- **DfaValidator** (`dfa_validator.dfy`): the validator's six passes.
  - Errors come from three passes: initial state, determinism and transition
    symbols.
  - Warnings come from three passes: accepting states, completeness and
    reachability.
  - The reachability pass runs a breadth-first search. Here it is a recursive
    function whose termination measure is the set of ids the search can
    still add: the start id and the transition targets.
- **DfaExecutor** (`dfa_executor.dfy`): the step simulator.
  - `Execute` produces the trace, and `ExecuteUpToStep` truncates it.
  - `Accepts` and `GetStepCount` are the two queries on it.
  - A trace is characterised by the predicate `IsTrace`, and acceptance is
    related to the extended transition function `DeltaStar`.
- **Json** and **DfaSerializer** (`json.dfy`, `dfa_serializer.dfy`): the
  import schema check over a parsed JSON value.
  - The first failing test wins.
  - `fromJSON` maps a syntax error to an invalid-format error.
  - `Encode` gives the value `JSON.stringify` writes, which yields a
    value-level export/import round trip.
- **InputValidation** (`input_validation.dfy`): the input-string check.
- **ExecutionStore** (`execution_store.dfy`): the playback cursor over a
  trace: clamping, stepping and the play/pause flags.
- **DfaStore** (`dfa_store.dfy`): the editor store. It covers:
  - selection;
  - cleanup of the selection on delete;
  - re-validation after every successful mutation;
  - the cached verdict that `isValid` returns.
- **Wrappers** and **Collections** (`wrappers.dfy`, `collections.dfy`):
  helpers the modules above share.
  - Wrappers holds `Option`, `Result` and `Outcome`.
  - Collections holds `filter`, `findIndex`, counting, and de-duplication
    with first-occurrence order.

Clock readings and generated ids are parameters (`now`, the ids inside the
records). Strings are sequences of characters.

Behaviour worth noting:

- The determinism pass emits one NON_DETERMINISTIC error per (state,
  symbol) pair that has two or more transitions. It does not emit one per
  offending state. See `src/core/dfa/DFAValidator.ts:123-131`.
- The constructor keeps an empty alphabet array, because an empty array is
  truthy in JavaScript. Only `setAlphabet` and the import schema refuse an
  empty alphabet.
- A missing endpoint in `addTransition` is one of two errors, source or
  target, and the source is checked first.

Behaviour the contracts make explicit:

- `removeState` in the store drops the node selection when it names the
  removed state. It keeps the edge selection even when the cascade removed
  the selected transition.
- `setExecutionResult` does not move the cursor. After a shorter trace is
  loaded there is no current step until the cursor moves
  (`ExecutionStore.StaleCursorAfterNewResult`).
- `goToEnd` on a trace with no steps puts the cursor at -1.
- `updateState` may change a state's id. `updateTransition` checks neither
  endpoint, and lets an empty symbol through.
- For the empty input, `executeUpToStep` judges acceptance by looking the
  initial state's id up again. With two states sharing that id it can
  disagree with `execute` (`DfaExecutor.SharedIdSplitsVerdicts`). With
  unique ids, or with non-empty input, the two always agree
  (`DfaExecutor.UpToEndIsExecute`).

## Model

| member | source | states |
|---|---|---|
| `Dfa.New` | src/core/dfa/DFA.ts:10-22 | With no definition: no states, no transitions, alphabet ["0","1"], name "Untitled DFA". With one: the collections are kept as given, an empty name becomes "Untitled DFA", an empty creation time becomes now, and the modification time is always now. |
| `Dfa.NewIsIdempotent` | src/store/dfaStore.ts:65-70 | Passing a constructed definition through the constructor again, with the same clock, changes nothing, so the store's re-wrap after each mutation is stable. |
| `Dfa.GetState` | src/core/dfa/DFA.ts:92-94 | None exactly when no state has the id; otherwise the first state carrying it. |
| `Dfa.GetInitialState` | src/core/dfa/DFA.ts:106-112 | None exactly when no state is initial-bearing; otherwise the first initial-bearing state in list order. |
| `Dfa.GetAcceptingStates` | src/core/dfa/DFA.ts:117-121 | The accepting-bearing states in their original order, each entry kept as often as it occurs: an order-preserving subsequence, all accepting-bearing, as long as the number of accepting-bearing entries. |
| `Dfa.GetTransition` | src/core/dfa/DFA.ts:197-199 | None exactly when no transition has the id; otherwise the first transition in list order carrying it. |
| `Dfa.GetTransitionsFromState` | src/core/dfa/DFA.ts:211-213 | The transitions leaving the state in their original order: an order-preserving subsequence, all from the state, as long as the number of transitions leaving it. |
| `Dfa.GetTransitionForSymbol` | src/core/dfa/DFA.ts:218-225 | None exactly when no transition leaves `from` on `symbol`; otherwise the first such transition in list order. |
| `Dfa.AddState` | src/core/dfa/DFA.ts:29-41 | The new state goes last. When it is initial-bearing, every other state is demoted (initial to normal, initial-accepting to accepting). The initial count becomes 1, or stays unchanged for a non-initial newcomer, so "at most one initial state" is preserved. |
| `Dfa.RemoveState` | src/core/dfa/DFA.ts:46-57 | Removes every state with the id and every transition from or to it. The rest keep their relative order, and each kept list is as long as the number of entries that survive, so duplicates survive as often as they occur. An unknown id leaves the states unchanged. |
| `Dfa.StatesWithout` | src/core/dfa/DFA.ts:47-49 | An order-preserving subsequence, none with the id, as long as the number of states whose id differs: exactly the states whose id differs. An unknown id keeps the list unchanged. |
| `Dfa.TransitionsAvoiding` | src/core/dfa/DFA.ts:52-54 | An order-preserving subsequence, none from or to the id, as long as the number of such transitions: exactly those neither from nor to the id. The list is unchanged when none touches it. |
| `Collections.FilterUnique` | src/core/dfa/DFA.ts:47-54 | An order-preserving subsequence whose entries all pass the test and whose length is the number of passing entries is the filtered list itself, so the length clauses above fix each result entry by entry. |
| `Dfa.UpdateState` | src/core/dfa/DFA.ts:62-87 | Fails exactly on an unknown id. Otherwise only the first matching index gets the merged record, which may carry a new id. The other states are demoted only when the merge makes a different initial-bearing kind. "At most one initial state" is preserved. |
| `Dfa.AddTransition` | src/core/dfa/DFA.ts:128-149 | Succeeds exactly when both endpoints exist and the symbol is in the alphabet. Errors are checked in order: source, then target, then symbol. On success exactly this transition is appended, even if it duplicates a (from, symbol) pair. |
| `Dfa.RemoveTransition` | src/core/dfa/DFA.ts:154-159 | An order-preserving subsequence with no transition carrying the id, as long as the number of transitions with another id, so exactly the others. An unknown id changes nothing in the list. |
| `Dfa.UpdateTransition` | src/core/dfa/DFA.ts:164-192 | Fails exactly on an unknown id, or on a non-empty new symbol outside the alphabet. Endpoints are not checked. Only the first matching index changes. |
| `Dfa.SetAlphabet` | src/core/dfa/DFA.ts:232-248 | Succeeds exactly on a non-empty list of one-character symbols. The errors are "empty", or the first multi-character symbol. On success the alphabet holds the distinct symbols in first-occurrence order, and states and transitions are untouched. |
| `Dfa.UpdateMetadata` | src/core/dfa/DFA.ts:262-268 | Patched fields are overwritten, the others are kept, and the modification time is now whatever the patch says. |
| `Dfa.Clear` | src/core/dfa/DFA.ts:296-300 | No states and no transitions. The alphabet, name, description and creation time stay. |
| `DfaValidator.Validate` | src/core/dfa/DFAValidator.ts:22-55 | Valid exactly when there are no errors. The errors are those of the initial-state, determinism and symbol passes, in that order. The warnings are those of the accepting-state, completeness and reachability passes, in that order. |
| `DfaValidator.ValidIff` | src/core/dfa/DFAValidator.ts:22-55 | Valid exactly when there is one initial-bearing state, no (state, symbol) pair has two transitions, and every transition symbol is in the alphabet. Warnings play no part. |
| `DfaValidator.InitialStateErrors` | src/core/dfa/DFAValidator.ts:60-80 | Exactly one NO_INITIAL_STATE error when no state is initial-bearing. Exactly one MULTIPLE_INITIAL_STATES error when more than one is. Nothing when exactly one is. |
| `DfaValidator.AcceptingStateWarnings` | src/core/dfa/DFAValidator.ts:85-101 | Empty exactly when some state is accepting-bearing; otherwise the single NO_ACCEPTING_STATE warning. |
| `DfaValidator.OutgoingSymbols` | src/core/dfa/DFAValidator.ts:145-151 | A symbol is listed exactly when some transition leaves the state on it. |
| `DfaValidator.DeterminismErrors` | src/core/dfa/DFAValidator.ts:106-135 | Every error is a NON_DETERMINISTIC issue naming an existing state and a symbol on which more than one transition leaves that state. |
| `DfaValidator.DeterminismErrorsShape` | src/core/dfa/DFAValidator.ts:106-135 | An issue is a determinism error exactly when it names a state and a symbol carried by two or more transitions leaving that state. |
| `DfaValidator.DeterminismErrorsCount` | src/core/dfa/DFAValidator.ts:106-135 | Each (id, symbol) error occurs once per state carrying the id when two or more transitions leave it on the symbol, and never otherwise. |
| `DfaValidator.NonDeterministicExactlyOnce` | src/core/dfa/DFAValidator.ts:123-131 | With unique ids: one error per (state, symbol) pair with more than one transition. It is not one per state. |
| `DfaValidator.MissingSymbolWarningsCount` | src/core/dfa/DFAValidator.ts:154-162 | For one state, each absent alphabet symbol gets its warning once per occurrence in the alphabet. |
| `DfaValidator.CompletenessWarnings` | src/core/dfa/DFAValidator.ts:140-166 | Every warning is an INCOMPLETE_TRANSITIONS issue naming an existing state and an alphabet symbol on which no transition leaves that state. |
| `DfaValidator.CompletenessWarningsCount` | src/core/dfa/DFAValidator.ts:140-166 | An INCOMPLETE_TRANSITIONS warning for (id, symbol) occurs (states with the id) × (occurrences of the symbol) times when no transition leaves the id on the symbol, and never otherwise. |
| `DfaValidator.IncompleteExactlyOnce` | src/core/dfa/DFAValidator.ts:140-166 | With unique ids and a duplicate-free alphabet: one warning per (state, alphabet symbol) pair with no transition. |
| `DfaValidator.BfsInvariant` | src/core/dfa/DFAValidator.ts:220-247 | The search from a consistent queue and visited set ends with exactly the ids reachable from the start. |
| `DfaValidator.FindReachableStates` | src/core/dfa/DFAValidator.ts:220-247 | Terminates and returns exactly the ids reachable from the start along from→to edges, the start included. |
| `DfaValidator.UnreachableWarnings` | src/core/dfa/DFAValidator.ts:185-193 | Warns about exactly the states whose ids are outside the reached set; the number of warnings is the number of unreached state entries. The per-id multiplicity is `DfaValidator.UnreachableWarningsCount`. |
| `DfaValidator.UnreachableWarningsCount` | src/core/dfa/DFAValidator.ts:185-193 | A warning for an id occurs once per state entry carrying that id when the id was not reached, repeated ids included, and never for a reached id. |
| `DfaValidator.ReachabilityWarnings` | src/core/dfa/DFAValidator.ts:171-196 | No warnings without an initial state. Otherwise a state is warned about exactly when it is unreachable from the first initial-bearing state, with as many warnings as unreachable state entries. The per-id multiplicity is `DfaValidator.ReachabilityWarningsCount`. |
| `DfaValidator.ReachabilityWarningsCount` | src/core/dfa/DFAValidator.ts:171-196 | No warning for any id without an initial state. Otherwise a warning for an id occurs once per state entry carrying it when the id is unreachable from the first initial-bearing state, and never otherwise. |
| `DfaValidator.SymbolErrors` | src/core/dfa/DFAValidator.ts:201-215 | INVALID_SYMBOL errors carrying the transition id, exactly for the transitions whose symbol is outside the alphabet, and as many errors as such transitions. The per-error multiplicity is `DfaValidator.SymbolErrorsCount`. |
| `DfaValidator.SymbolErrorsCount` | src/core/dfa/DFAValidator.ts:201-215 | Each error occurs exactly as often as there are transitions with a foreign symbol that raise it, so two transitions sharing an id and symbol give two equal errors. |
| `DfaValidator.SymbolErrorsEmpty` | src/core/dfa/DFAValidator.ts:201-215 | No symbol errors exactly when every transition symbol is in the alphabet. |
| `DfaValidator.DeterminismErrorsEmpty` | src/core/dfa/DFAValidator.ts:106-135 | No determinism errors exactly when no state has two transitions on one symbol. |
| `DfaExecutor.Run` | src/core/dfa/DFAExecutor.ts:63-117 | The loop only ever appends to the trace, never past one step per symbol plus the initial one, and it stops without error exactly when the whole input has been consumed. |
| `DfaExecutor.RunVerdict` | src/core/dfa/DFAExecutor.ts:63-117 | What the loop appends keeps the trace a trace, and the final state is the held state. A complete trace is accepted exactly when the held state is accepting. A trace that stops early is rejected, and its error names the missing transition (with the state's label) or the missing target. |
| `DfaExecutor.Simulate` | src/core/dfa/DFAExecutor.ts:49-117 | Started in a state with the whole input left, the result is a trace ending in its final state; it is complete exactly when there is no error, and the verdict is as `DfaExecutor.RunVerdict` states. |
| `DfaExecutor.Execute` | src/core/dfa/DFAExecutor.ts:21-118 | The no-initial-state error comes first: no steps, no final state. Then the leftmost symbol outside the alphabet: no steps, no final state. Otherwise a trace from the first initial state. It is complete exactly when there is no error, and its final state is the last step's. A complete trace is accepted exactly when the held state is accepting. A blocked trace keeps its steps, names the missing transition or target, and is rejected. |
| `DfaExecutor.TracesAgreeAt` | src/core/dfa/DFAExecutor.ts:63-106 | Two traces over the same input from the same state agree at every position both have, because each step takes the first matching transition. |
| `DfaExecutor.TraceIsDetermined` | src/core/dfa/DFAExecutor.ts:63-106 | Of two traces over the same input from the same state, the shorter is a prefix of the longer. Each step uses the first matching transition. |
| `DfaExecutor.RunIsDeltaStar` | src/core/dfa/DFAExecutor.ts:63-117 | The loop completes exactly when the extended transition function is defined on the remaining input, and then accepts exactly when it leads to an accepting state. |
| `DfaExecutor.Accepts` | src/core/dfa/DFAExecutor.ts:153-156 | An accepted input was simulated completely, with no error and one step per symbol plus one. |
| `DfaExecutor.AcceptsIsDeltaStar` | src/core/dfa/DFAExecutor.ts:153-156 | An input is accepted exactly when there is an initial state, every symbol is in the alphabet, and the extended transition function leads from the first initial state to an accepting state. |
| `DfaExecutor.StepCountBoundsTrace` | src/core/dfa/DFAExecutor.ts:161-163 | A run without error has exactly getStepCount(input) steps; no run has more. |
| `DfaExecutor.GetStepCount` | src/core/dfa/DFAExecutor.ts:161-163 | One step per input character plus the initial step; `DfaExecutor.StepCountBoundsTrace` ties it to the traces. |
| `DfaExecutor.ExecuteUpToStep` | src/core/dfa/DFAExecutor.ts:123-148 | Error results come back unchanged. Otherwise the trace is cut with JavaScript slice semantics, and an empty slice is an error. The final state is the last kept step's. |
| `DfaExecutor.SliceEnd` | src/core/dfa/DFAExecutor.ts:131 | The kept length is within the trace: a non-negative end is clamped, a negative end counts from the back. |
| `DfaExecutor.UpToEndIsExecute` | src/core/dfa/DFAExecutor.ts:123-156 | Truncating at or beyond the input length gives exactly the full simulation, for unique ids or non-empty input. |
| `DfaExecutor.SharedIdSplitsVerdicts` | src/core/dfa/DFAExecutor.ts:123-148 | With two states sharing the initial state's id, the empty input is rejected by the simulation but accepted by the truncation. |
| `DfaExecutor.TruncatedRunIsNotAccepted` | src/core/dfa/DFAExecutor.ts:139-144 | A trace cut before the end of the input is never accepted, whatever state it stands in. |
| `DfaSerializer.ValidateState` | src/core/dfa/DFASerializer.ts:101-133 | Passes exactly on an object with string id and label, one of the four type tags, and a position object with numeric x and y. The error is the first failing test in that order: not an object, then id, then label, then type, then position. |
| `DfaSerializer.ValidateTransition` | src/core/dfa/DFASerializer.ts:138-160 | Passes exactly on an object with string id, from, to and symbol. The error is the first failing test in that order: not an object, then id, from, to, symbol. |
| `DfaSerializer.CheckEach` | src/core/dfa/DFASerializer.ts:46-57 | Passes exactly when every entry passes. Otherwise the error is that of a failing entry all of whose predecessors pass, i.e. the first failing one. |
| `DfaSerializer.CheckAlphabet` | src/core/dfa/DFASerializer.ts:64-72 | Passes exactly on a non-empty list of strings of any length. The empty list fails as empty; a non-empty list with a non-string fails on the symbol type. |
| `DfaSerializer.CheckMetadata` | src/core/dfa/DFASerializer.ts:79-95 | Passes exactly when name, description, createdAt and modifiedAt are strings. The error names the first of them, in that order, that is not a string. |
| `DfaSerializer.ValidateSchema` | src/core/dfa/DFASerializer.ts:34-96 | Passes exactly on the values the schema describes. A non-object fails first, then a missing states array, then the first failing state entry with that entry's own error; once every state passes, the verdict is that of the later stages. |
| `DfaSerializer.CheckFromTransitions` | src/core/dfa/DFASerializer.ts:50-95 | On an object: a missing transitions array fails first, then the first failing transition entry with its own error; once every transition passes, the verdict is that of the alphabet and metadata stage. |
| `DfaSerializer.CheckAlphabetAndMetadata` | src/core/dfa/DFASerializer.ts:59-95 | On an object: a missing alphabet array, an empty alphabet and a non-string symbol fail in that order, then a missing metadata object, then the first ill-typed metadata field. |
| `DfaSerializer.SchemaErrorOrder` | src/core/dfa/DFASerializer.ts:34-96 | On the whole value, each later error happens exactly when every earlier test passes and its own test fails: transitions array, transition entries, alphabet array, empty alphabet, symbol types, metadata object, metadata fields. |
| `DfaSerializer.FromJson` | src/core/dfa/DFASerializer.ts:18-28 | A syntax error becomes an invalid-format error. A schema error is passed on unchanged. Success happens exactly on schema-valid values, which are read as the definition. |
| `DfaSerializer.KindName` | src/core/dfa/DFASerializer.ts:116-121 | Each state kind's tag reads back as that kind. |
| `DfaSerializer.Encode` | src/core/dfa/DFASerializer.ts:11-13 | The exported value carries the states, transitions and alphabet entry by entry and the four metadata strings, in the shape the import schema reads. |
| `DfaSerializer.SchemaOfEncoding` | src/core/dfa/DFASerializer.ts:34-96 | A value carrying an export's four members is schema-valid exactly when the alphabet is non-empty and every coordinate is finite. |
| `DfaSerializer.DecodeOfEncoding` | src/core/dfa/DFASerializer.ts:18-28 | Reading back a schema-valid value that carries an export's four members gives the automaton. |
| `DfaSerializer.ExportPassesSchema` | src/core/dfa/DFASerializer.ts:11-13 | An exported automaton passes the import schema exactly when its alphabet is non-empty and all coordinates are finite. NaN and the infinities are written as null. |
| `DfaSerializer.ImportOfExport` | src/core/dfa/DFASerializer.ts:11-28 | Under those conditions, import after export gives back the same automaton. |
| `InputValidation.FirstForeignIndex` | src/utils/validation.ts:13-21 | None exactly when every character is in the alphabet. Otherwise the leftmost character that is not. |
| `InputValidation.ValidateInputString` | src/utils/validation.ts:8-24 | Valid exactly when every character is in the alphabet, so the empty input is valid. A failure carries the leftmost bad character as both error and invalid symbol; a success carries neither. |
| `ExecutionStore.GetCurrentStep` | src/store/executionStore.ts:54-60 | A step exactly when there is a trace and the index lies inside it, and then it is a step of the trace. |
| `ExecutionStore.GetTotalSteps` | src/store/executionStore.ts:62-65 | The trace length, or 0 without a trace. |
| `ExecutionStore.AtStartAndEnd` | src/store/executionStore.ts:67-72 | With the cursor on a non-empty trace: at the start the current step is the first one; at the end exactly when on the last step, which is then current; both at once exactly when the trace has one step. |
| `ExecutionStore.SetInputString` | src/store/executionStore.ts:75 | Sets the input string and nothing else. |
| `ExecutionStore.SetExecutionResult` | src/store/executionStore.ts:77 | Replaces the trace and changes nothing else, so the cursor stays where it was. |
| `ExecutionStore.SetCurrentStepIndex` | src/store/executionStore.ts:79-88 | Without a trace nothing changes. Otherwise the index is clamped into the trace: in-range indexes are kept, larger ones go to the end, smaller ones to the start, and an empty trace puts the cursor at 0. Nothing else changes. |
| `ExecutionStore.SetSpeed` | src/store/executionStore.ts:90-93 | The speed ends within [100, 2000] and equals the request when that is in range. |
| `ExecutionStore.StartExecution` | src/store/executionStore.ts:96-102 | Executing, not paused, cursor at 0; trace, speed and input kept. |
| `ExecutionStore.PauseExecution` | src/store/executionStore.ts:104 | Sets isPaused and nothing else. |
| `ExecutionStore.ResumeExecution` | src/store/executionStore.ts:106 | Clears isPaused and nothing else. |
| `ExecutionStore.StopExecution` | src/store/executionStore.ts:108-114 | Not executing, not paused, cursor at 0; trace, speed and input kept. |
| `ExecutionStore.Reset` | src/store/executionStore.ts:116-124 | The fresh store except for the speed. |
| `ExecutionStore.StepForward` | src/store/executionStore.ts:127-134 | Moves one step on unless at the end or without a trace. Nothing else changes. |
| `ExecutionStore.StepBackward` | src/store/executionStore.ts:136-141 | Moves one step back exactly when the index is positive. Nothing else changes. |
| `ExecutionStore.JumpToStep` | src/store/executionStore.ts:143-145 | Without a trace nothing changes; otherwise only the cursor moves. An in-range target becomes the current step, a larger one goes to the end, a smaller one (or any target on an empty trace) to the start. |
| `ExecutionStore.GoToStart` | src/store/executionStore.ts:147 | The cursor at 0, nothing else changed. |
| `ExecutionStore.GoToEnd` | src/store/executionStore.ts:149-154 | With a trace: at the end, on the last step, or at index -1 with no current step for an empty trace. Without a trace nothing changes. Only the cursor moves. |
| `ExecutionStore.NavigationKeepsCursorInRange` | src/store/executionStore.ts:75-154 | Stepping, jumping, setting the index, both ends, start, stop, pause, resume, reset, speed and setting the input keep the cursor on a step of a non-empty trace; only setExecutionResult can leave it stale. |
| `ExecutionStore.CursorInRangeHasStep` | src/store/executionStore.ts:54-60 | With the cursor in range, a non-empty trace always has a current step. |
| `ExecutionStore.ForwardThenBack` | src/store/executionStore.ts:127-141 | Stepping forward then back, away from the end, restores the store. |
| `ExecutionStore.BackThenForward` | src/store/executionStore.ts:127-141 | Stepping back then forward, away from the start, restores the store. |
| `ExecutionStore.ForwardWalkReachesEnd` | src/store/executionStore.ts:127-134 | n forward steps advance the cursor by n, but stop at the last step. |
| `ExecutionStore.StaleCursorAfterNewResult` | src/store/executionStore.ts:77 | After a shorter trace is loaded there is no current step, and the store reports being at the end. |
| `DfaStore.Init` | src/store/dfaStore.ts:52-56 | The default automaton, with a consistent selection and cache to start from. |
| `DfaStore.Commit` | src/store/dfaStore.ts:65-70 | After a change the definition is re-wrapped through the constructor and validated again; the selection is untouched. |
| `DfaStore.AddState` | src/store/dfaStore.ts:65-70 | The automaton's addState result is committed, so the new state is present and the cache is its validation. |
| `DfaStore.RemoveState` | src/store/dfaStore.ts:72-80 | The node selection is dropped exactly when it is the removed id. The edge selection is kept. The state is gone and the result is validated. |
| `DfaStore.UpdateState` | src/store/dfaStore.ts:82-87 | Fails, with no new store, exactly on an unknown id; otherwise the update is committed. |
| `DfaStore.AddTransition` | src/store/dfaStore.ts:90-100 | Succeeds exactly when both endpoints exist and the symbol is in the alphabet; then the automaton's addTransition result is committed and validated. A rejection carries the automaton's error and no store results. |
| `DfaStore.RemoveTransition` | src/store/dfaStore.ts:102-110 | The edge selection is dropped exactly when it is the removed id. The node selection is kept. The result is validated. |
| `DfaStore.UpdateTransition` | src/store/dfaStore.ts:112-122 | Fails exactly on an unknown id or a non-empty symbol outside the alphabet; otherwise the update is committed. |
| `DfaStore.SetAlphabet` | src/store/dfaStore.ts:125-135 | Succeeds exactly on a non-empty list of one-character symbols, and then commits the automaton's setAlphabet result: the alphabet holds exactly those symbols and the transitions are kept. An empty list fails as empty; every failure is the automaton's error. |
| `DfaStore.SelectNode` | src/store/dfaStore.ts:138 | The node becomes selected and the edge selection is cleared. |
| `DfaStore.SelectEdge` | src/store/dfaStore.ts:139 | The edge becomes selected and the node selection is cleared. |
| `DfaStore.ClearSelection` | src/store/dfaStore.ts:140 | Both selections cleared. |
| `DfaStore.LoadDfa` | src/store/dfaStore.ts:143-151 | The stored definition is the constructor applied to the loaded one: collections kept, an empty name becomes the default, the modification time is now. Both selections are cleared and the result is validated. |
| `DfaStore.ClearDfa` | src/store/dfaStore.ts:153-161 | The stored definition is the constructor's default: alphabet ["0","1"], no states or transitions. No selection, no cached validation. |
| `DfaStore.UpdateMetadata` | src/store/dfaStore.ts:163-167 | The stored definition is the constructor applied to the automaton's updateMetadata result. The cached validation is kept as it was; states, transitions, alphabet and selection are unchanged. |
| `DfaStore.Revalidate` | src/store/dfaStore.ts:170-176 | Returns the validation of the current automaton and caches it. |
| `DfaStore.IsValid` | src/store/dfaStore.ts:178-181 | The cached verdict when there is one; otherwise a fresh validation, which is then cached. With a fresh cache it is the current automaton's verdict. |
| `DfaStore.ValidateIgnoresMetadata` | src/core/dfa/DFAValidator.ts:22-55 | Validation depends only on states, transitions and alphabet. |
| `DfaStore.UpdateMetadataKeepsCacheFresh` | src/store/dfaStore.ts:163-167 | Skipping validation in updateMetadata is sound: a fresh cache stays fresh. |
| `DfaStore.ActionsKeepCacheFresh` | src/store/dfaStore.ts:65-181 | Every accepted action leaves the cache either empty or equal to the current automaton's validation. |
| `DfaStore.ActionsKeepSelectionExclusive` | src/store/dfaStore.ts:72-161 | Every accepted action leaves at most one of node and edge selected. |
| `DfaStore.PerformAllKeepsInvariants` | src/store/dfaStore.ts:65-181 | Any sequence of accepted actions from a consistent store keeps both invariants. |
| `DfaStore.ActionsKeepSingleInitial` | src/store/dfaStore.ts:65-87 | Adding, removing and updating states through the store keep "at most one initial state". |

## Left out

- Message texts: errors, validation issues and the simulator's error are constructors carrying the ids and symbols their messages quote.
- The optional `metadata` of states and transitions (description, colour): it plays no part in any operation modelled here.
- Patches with keys explicitly set to `undefined`: a patch field is either absent (`None`) or a value.
- The constructor called with a partially filled definition: only the two shapes the store uses are modelled, no argument and a complete definition.
- `loadDefinition`, `getDefinition`, `getStates`, `getTransitions`, `getAlphabet` and `getMetadata`: they copy or read the whole record, which value semantics make trivial. The store never calls `loadDefinition`.
- The validator's `isValid`, `getErrors` and `getWarnings`: each is a field of `Validate`'s result.
- `generateStateId` and `generateTransitionId`, and every `new Date()`: ids are inputs, and the clock is the `now` parameter.
- Coordinates are opaque reals (or NaN or an infinity). No arithmetic is done on them.
- The text side of `toJSON` and `fromJSON`: `JSON.parse` is the `ParseOutcome` input, and `JSON.stringify` is `Encode` to a JSON value. `exportToFile` and `importFromFile`, the browser's file I/O, are left out too.
- Numbers in the playback store and the `targetStep` of `executeUpToStep` are integers. Fractional indexes and targets (where `slice` truncates `targetStep + 1`), and a NaN speed, where `Math.max`/`Math.min` yield NaN, are not modelled.
- JSON number literals too large for a double: `JSON.parse` reads them as infinities, which pass the `typeof === 'number'` position test at `src/core/dfa/DFASerializer.ts:126-130`. Here a parsed number is a finite real.
- Characters are sequence elements. The difference between `for..of` over code points and indexing over UTF-16 code units is not modelled.
- The store's `console.error` logging, zustand's `create`/`set` plumbing, `uiStore`, `debounce`, `safeJSONParse`, the React hooks and components, and the auto-advance timers.
- DfaExecutor.UpToEndIsExecute: requires unique state ids or a non-empty input. Without either, the two verdicts can differ (`DfaExecutor.SharedIdSplitsVerdicts`).
- DfaExecutor.ExecuteUpToStep: the verdict of a non-empty truncation is stated through `DfaExecutor.TruncatedRunIsNotAccepted` and `DfaExecutor.UpToEndIsExecute`, not in its own contract.
