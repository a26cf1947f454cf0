/** The automaton's data model: states, transitions, alphabet, metadata,
    and the shapes of validation and execution results. */
module DfaTypes {
  import opened Wrappers

  /** The four state kinds: "is initial" x "is accepting" as one tag. */
  datatype StateType = Normal | Initial | Accepting | InitialAccepting

  predicate IsInitialKind(k: StateType) {
    k == Initial || k == InitialAccepting
  }

  predicate IsAcceptingKind(k: StateType) {
    k == Accepting || k == InitialAccepting
  }

  /** A canvas coordinate, a JavaScript number: it has no role in the
      automaton's semantics, but NaN and the infinities are kept apart
      because the JSON text format cannot carry them. */
  datatype Coord = Finite(value: real) | NaN | Infinity(negative: bool)

  datatype Position = Position(x: Coord, y: Coord)

  /** A node of the automaton (`DFAState`). */
  datatype State = State(id: string, labelText: string, kind: StateType, position: Position)

  /** A symbol-labelled edge (`DFATransition`). */
  datatype Transition = Transition(id: string, from: string, to: string, symbol: string)

  /** Timestamps are opaque clock readings (ISO strings in the source). */
  datatype Metadata = Metadata(name: string, description: string, createdAt: string, modifiedAt: string)

  /** A complete automaton (`DFADefinition`). The alphabet is a list of
      strings: the mutators keep its symbols one character long, but a
      loaded definition need not. */
  datatype Definition = Definition(
    states: seq<State>,
    transitions: seq<Transition>,
    alphabet: seq<string>,
    metadata: Metadata)

  predicate IsInitialState(s: State) {
    IsInitialKind(s.kind)
  }

  predicate IsAcceptingState(s: State) {
    IsAcceptingKind(s.kind)
  }

  /** No two states share an id (what generated ids give in practice). */
  predicate UniqueStateIds(states: seq<State>) {
    forall i, j :: 0 <= i < j < |states| ==> states[i].id != states[j].id
  }

  // ----- Validation results -----

  /** The kinds a validation error or warning can carry. */
  datatype IssueKind =
    | NoInitialState
    | MultipleInitialStates
    | NonDeterministic
    | InvalidTransition
    | UnreachableState
    | IncompleteTransitions
    | InvalidSymbol
    | NoAcceptingState

  /** One validation error or warning: its kind, the state or transition it
      refers to, and the symbol its message quotes. */
  datatype Issue = Issue(
    kind: IssueKind,
    stateId: Option<string>,
    transitionId: Option<string>,
    symbol: Option<string>)

  datatype ValidationResult = ValidationResult(isValid: bool, errors: seq<Issue>, warnings: seq<Issue>)

  // ----- Execution results -----

  /** One entry of a simulation trace. */
  datatype ExecutionStep = ExecutionStep(
    stepNumber: nat,
    currentState: string,
    remainingInput: string,
    consumedSymbol: Option<char>,
    transitionUsed: Option<string>)

  /** Why a simulation stopped early (the `error` message of the source). */
  datatype ExecutionError =
    | NoStartState
    | SymbolOutsideAlphabet(symbol: char, alphabet: seq<string>)
    | Stuck(stateLabel: string, symbol: char)
    | DanglingTarget(target: string)

  datatype ExecutionResult = ExecutionResult(
    accepted: bool,
    steps: seq<ExecutionStep>,
    finalState: Option<string>,
    error: Option<ExecutionError>)
}
