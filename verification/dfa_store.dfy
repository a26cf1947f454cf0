/** The editor's automaton store (store/dfaStore.ts): the current
    automaton, the selected node or edge, and the cached validation result.
    Each action is a function from the old store to the new one; an action
    the automaton model rejects yields its error and no new store. */
module DfaStore {
  import opened Wrappers
  import opened Collections
  import opened DfaTypes
  import Dfa
  import DfaValidator

  datatype Store = Store(
    dfa: Definition,
    selectedNodeId: Option<string>,
    selectedEdgeId: Option<string>,
    validationResult: Option<ValidationResult>)

  /** The store as created: a default automaton, nothing selected, no
      validation yet. */
  function Init(now: string): (r: Store)
    ensures r.dfa == Dfa.New(None, now)
    ensures SelectionExclusive(r) && CacheFresh(r)
  {
    Store(Dfa.New(None, now), None, None, None)
  }

  /** At most one of a node and an edge is selected. */
  predicate SelectionExclusive(s: Store) {
    s.selectedNodeId.None? || s.selectedEdgeId.None?
  }

  /** A cached validation result, if any, is that of the current automaton. */
  predicate CacheFresh(s: Store) {
    s.validationResult.None? || s.validationResult.value == DfaValidator.Validate(s.dfa)
  }

  /** What every successful mutation ends with: the changed definition is
      re-wrapped through the constructor (`new DFA(dfa.getDefinition())`)
      and validated again. */
  function Commit(s: Store, d: Definition, now: string): (r: Store)
    ensures r.dfa == Dfa.New(Some(d), now)
    ensures r.validationResult == Some(DfaValidator.Validate(r.dfa))
    ensures r.selectedNodeId == s.selectedNodeId && r.selectedEdgeId == s.selectedEdgeId
  {
    var dfa := Dfa.New(Some(d), now);
    s.(dfa := dfa, validationResult := Some(DfaValidator.Validate(dfa)))
  }

  // ----- State actions -----

  function AddState(s: Store, state: State, now: string): (r: Store)
    ensures r == Commit(s, Dfa.AddState(s.dfa, state, now), now)
    ensures state in r.dfa.states
  {
    Commit(s, Dfa.AddState(s.dfa, state, now), now)
  }

  /** `removeState`: the node selection is dropped exactly when it is the
      removed state; the edge selection is kept, even when the cascade
      removed the selected transition. */
  function RemoveState(s: Store, id: string, now: string): (r: Store)
    ensures r.dfa == Dfa.New(Some(Dfa.RemoveState(s.dfa, id, now)), now)
    ensures r.validationResult == Some(DfaValidator.Validate(r.dfa))
    ensures r.selectedNodeId == if s.selectedNodeId == Some(id) then None else s.selectedNodeId
    ensures r.selectedEdgeId == s.selectedEdgeId
    ensures !Dfa.HasState(r.dfa.states, id)
  {
    var c := Commit(s, Dfa.RemoveState(s.dfa, id, now), now);
    c.(selectedNodeId := if s.selectedNodeId == Some(id) then None else s.selectedNodeId)
  }

  /** `updateState`: an unknown id throws out of the action and the store
      stays as it was. */
  function UpdateState(s: Store, id: string, patch: Dfa.StatePatch, now: string): (r: Result<Store, Dfa.DfaError>)
    ensures r.Err? <==> !Dfa.HasState(s.dfa.states, id)
    ensures r.Ok? ==> Dfa.UpdateState(s.dfa, id, patch, now).Ok?
                      && r.value == Commit(s, Dfa.UpdateState(s.dfa, id, patch, now).value, now)
  {
    match Dfa.UpdateState(s.dfa, id, patch, now)
    case Err(e) => Err(e)
    case Ok(d) => Ok(Commit(s, d, now))
  }

  // ----- Transition actions -----

  /** `addTransition`: a rejected transition is rethrown and nothing
      changes, the cached validation included. */
  function AddTransition(s: Store, t: Transition, now: string): (r: Result<Store, Dfa.DfaError>)
    ensures r.Ok? <==> Dfa.HasState(s.dfa.states, t.from) && Dfa.HasState(s.dfa.states, t.to)
                       && t.symbol in s.dfa.alphabet
    ensures r.Ok? ==> r.value.dfa.transitions == s.dfa.transitions + [t]
                      && r.value.validationResult == Some(DfaValidator.Validate(r.value.dfa))
    ensures r.Err? ==> r.error == Dfa.AddTransition(s.dfa, t, now).error
    ensures r.Ok? ==> Dfa.AddTransition(s.dfa, t, now).Ok?
                      && r.value == Commit(s, Dfa.AddTransition(s.dfa, t, now).value, now)
  {
    match Dfa.AddTransition(s.dfa, t, now)
    case Err(e) => Err(e)
    case Ok(d) => Ok(Commit(s, d, now))
  }

  /** `removeTransition`: the edge selection is dropped exactly when it is
      the removed transition. */
  function RemoveTransition(s: Store, id: string, now: string): (r: Store)
    ensures r.dfa == Dfa.New(Some(Dfa.RemoveTransition(s.dfa, id, now)), now)
    ensures r.validationResult == Some(DfaValidator.Validate(r.dfa))
    ensures r.selectedEdgeId == if s.selectedEdgeId == Some(id) then None else s.selectedEdgeId
    ensures r.selectedNodeId == s.selectedNodeId
    ensures !Dfa.HasTransition(r.dfa.transitions, id)
  {
    var c := Commit(s, Dfa.RemoveTransition(s.dfa, id, now), now);
    c.(selectedEdgeId := if s.selectedEdgeId == Some(id) then None else s.selectedEdgeId)
  }

  function UpdateTransition(s: Store, id: string, patch: Dfa.TransitionPatch, now: string)
    : (r: Result<Store, Dfa.DfaError>)
    ensures r.Err? <==> !Dfa.HasTransition(s.dfa.transitions, id) || Dfa.RejectsSymbol(patch, s.dfa.alphabet)
    ensures r.Ok? ==> Dfa.UpdateTransition(s.dfa, id, patch, now).Ok?
                      && r.value == Commit(s, Dfa.UpdateTransition(s.dfa, id, patch, now).value, now)
  {
    match Dfa.UpdateTransition(s.dfa, id, patch, now)
    case Err(e) => Err(e)
    case Ok(d) => Ok(Commit(s, d, now))
  }

  // ----- Alphabet -----

  /** `setAlphabet`: a rejected alphabet is rethrown and nothing changes;
      otherwise the de-duplicated alphabet is committed. */
  function SetAlphabet(s: Store, symbols: seq<string>, now: string): (r: Result<Store, Dfa.DfaError>)
    ensures r.Ok? <==> |symbols| > 0 && forall i :: 0 <= i < |symbols| ==> |symbols[i]| == 1
    ensures |symbols| == 0 ==> r == Err(Dfa.EmptyAlphabet)
    ensures r.Err? ==> r.error == Dfa.SetAlphabet(s.dfa, symbols, now).error
    ensures r.Ok? ==> Dfa.SetAlphabet(s.dfa, symbols, now).Ok?
                      && r.value == Commit(s, Dfa.SetAlphabet(s.dfa, symbols, now).value, now)
    ensures r.Ok? ==> (forall x :: x in r.value.dfa.alphabet <==> x in symbols)
                      && r.value.dfa.transitions == s.dfa.transitions
                      && r.value.validationResult == Some(DfaValidator.Validate(r.value.dfa))
  {
    match Dfa.SetAlphabet(s.dfa, symbols, now)
    case Err(e) => Err(e)
    case Ok(d) => Ok(Commit(s, d, now))
  }

  // ----- Selection -----

  /** Selecting a node drops the edge selection. */
  function SelectNode(s: Store, nodeId: Option<string>): (r: Store)
    ensures r.selectedNodeId == nodeId && r.selectedEdgeId.None?
    ensures r.dfa == s.dfa && r.validationResult == s.validationResult
  {
    s.(selectedNodeId := nodeId, selectedEdgeId := None)
  }

  /** Selecting an edge drops the node selection. */
  function SelectEdge(s: Store, edgeId: Option<string>): (r: Store)
    ensures r.selectedEdgeId == edgeId && r.selectedNodeId.None?
    ensures r.dfa == s.dfa && r.validationResult == s.validationResult
  {
    s.(selectedEdgeId := edgeId, selectedNodeId := None)
  }

  function ClearSelection(s: Store): (r: Store)
    ensures r.selectedNodeId.None? && r.selectedEdgeId.None?
    ensures r.dfa == s.dfa && r.validationResult == s.validationResult
  {
    s.(selectedNodeId := None, selectedEdgeId := None)
  }

  // ----- Bulk actions -----

  /** `loadDFA`: the definition goes through the constructor (so an empty
      name becomes the default and the modification time is `now`), both
      selections are dropped, and the result is validated. */
  function LoadDfa(s: Store, d: Definition, now: string): (r: Store)
    ensures r.dfa == Dfa.New(Some(d), now)
    ensures r.dfa.states == d.states && r.dfa.transitions == d.transitions && r.dfa.alphabet == d.alphabet
    ensures r.dfa.metadata.modifiedAt == now
    ensures d.metadata.name == "" ==> r.dfa.metadata.name == Dfa.DefaultName
    ensures r.selectedNodeId.None? && r.selectedEdgeId.None?
    ensures r.validationResult == Some(DfaValidator.Validate(r.dfa))
  {
    var dfa := Dfa.New(Some(d), now);
    Store(dfa, None, None, Some(DfaValidator.Validate(dfa)))
  }

  /** `clearDFA`: a fresh default automaton, nothing selected, no cached
      validation. */
  function ClearDfa(s: Store, now: string): (r: Store)
    ensures r.dfa == Dfa.New(None, now)
    ensures r.dfa.states == [] && r.dfa.transitions == [] && r.dfa.alphabet == Dfa.DefaultAlphabet
    ensures r.selectedNodeId.None? && r.selectedEdgeId.None? && r.validationResult.None?
  {
    Store(Dfa.New(None, now), None, None, None)
  }

  /** `updateMetadata` re-wraps the automaton but does not validate again:
      the cached result is kept as it was. */
  function UpdateMetadata(s: Store, patch: Dfa.MetadataPatch, now: string): (r: Store)
    ensures r.validationResult == s.validationResult
    ensures r.dfa == Dfa.New(Some(Dfa.UpdateMetadata(s.dfa, patch, now)), now)
    ensures r.dfa.states == s.dfa.states && r.dfa.transitions == s.dfa.transitions
    ensures r.dfa.alphabet == s.dfa.alphabet && r.dfa.metadata.modifiedAt == now
    ensures r.selectedNodeId == s.selectedNodeId && r.selectedEdgeId == s.selectedEdgeId
  {
    s.(dfa := Dfa.New(Some(Dfa.UpdateMetadata(s.dfa, patch, now)), now))
  }

  // ----- Validation -----

  /** `validate`: validates the current automaton and caches the result. */
  function Revalidate(s: Store): (r: (ValidationResult, Store))
    ensures r.0 == DfaValidator.Validate(s.dfa)
    ensures r.1 == s.(validationResult := Some(r.0))
    ensures CacheFresh(r.1)
  {
    var result := DfaValidator.Validate(s.dfa);
    (result, s.(validationResult := Some(result)))
  }

  /** `isValid`: the cached verdict when there is one, otherwise a fresh
      validation (which is then cached). */
  function IsValid(s: Store): (r: (bool, Store))
    ensures s.validationResult.Some? ==> r == (s.validationResult.value.isValid, s)
    ensures s.validationResult.None? ==> r.0 == DfaValidator.Validate(s.dfa).isValid && CacheFresh(r.1)
    ensures CacheFresh(s) ==> r.0 == DfaValidator.Validate(s.dfa).isValid
  {
    match s.validationResult
    case Some(v) => (v.isValid, s)
    case None =>
      var (v, s') := Revalidate(s);
      (v.isValid, s')
  }

  // ----- Properties -----

  /** Validation reads the states, the transitions and the alphabet only. */
  lemma ValidateIgnoresMetadata(d: Definition, m: Metadata)
    ensures DfaValidator.Validate(d.(metadata := m)) == DfaValidator.Validate(d)
  {
    var d' := d.(metadata := m);
    assert DfaValidator.ReachabilityWarnings(d') == DfaValidator.ReachabilityWarnings(d);
  }

  /** Skipping validation in `updateMetadata` is sound: a fresh cache stays
      fresh. */
  lemma UpdateMetadataKeepsCacheFresh(s: Store, patch: Dfa.MetadataPatch, now: string)
    requires CacheFresh(s)
    ensures CacheFresh(UpdateMetadata(s, patch, now))
  {
    var r := UpdateMetadata(s, patch, now);
    assert r.dfa == s.dfa.(metadata := r.dfa.metadata);
    ValidateIgnoresMetadata(s.dfa, r.dfa.metadata);
  }

  /** The store's actions, as one type. */
  datatype Action =
    | AddStateAction(state: State)
    | RemoveStateAction(stateId: string)
    | UpdateStateAction(stateId: string, statePatch: Dfa.StatePatch)
    | AddTransitionAction(transition: Transition)
    | RemoveTransitionAction(transitionId: string)
    | UpdateTransitionAction(transitionId: string, transitionPatch: Dfa.TransitionPatch)
    | SetAlphabetAction(symbols: seq<string>)
    | SelectNodeAction(nodeId: Option<string>)
    | SelectEdgeAction(edgeId: Option<string>)
    | ClearSelectionAction
    | LoadDfaAction(definition: Definition)
    | ClearDfaAction
    | UpdateMetadataAction(metadataPatch: Dfa.MetadataPatch)
    | ValidateAction
    | IsValidAction

  /** Performs one action at clock reading `now`; a rejected action yields
      its error and no new store. */
  function Perform(s: Store, a: Action, now: string): Result<Store, Dfa.DfaError> {
    match a
    case AddStateAction(state) => Ok(AddState(s, state, now))
    case RemoveStateAction(id) => Ok(RemoveState(s, id, now))
    case UpdateStateAction(id, patch) => UpdateState(s, id, patch, now)
    case AddTransitionAction(t) => AddTransition(s, t, now)
    case RemoveTransitionAction(id) => Ok(RemoveTransition(s, id, now))
    case UpdateTransitionAction(id, patch) => UpdateTransition(s, id, patch, now)
    case SetAlphabetAction(symbols) => SetAlphabet(s, symbols, now)
    case SelectNodeAction(id) => Ok(SelectNode(s, id))
    case SelectEdgeAction(id) => Ok(SelectEdge(s, id))
    case ClearSelectionAction => Ok(ClearSelection(s))
    case LoadDfaAction(d) => Ok(LoadDfa(s, d, now))
    case ClearDfaAction => Ok(ClearDfa(s, now))
    case UpdateMetadataAction(patch) => Ok(UpdateMetadata(s, patch, now))
    case ValidateAction => Ok(Revalidate(s).1)
    case IsValidAction => Ok(IsValid(s).1)
  }

  /** Every action keeps the cached validation result, when there is one,
      equal to the validation of the current automaton, so `isValid` always
      answers for the current automaton. */
  lemma ActionsKeepCacheFresh(s: Store, a: Action, now: string)
    requires CacheFresh(s)
    ensures Perform(s, a, now).Ok? ==> CacheFresh(Perform(s, a, now).value)
  {
    if a.UpdateMetadataAction? {
      UpdateMetadataKeepsCacheFresh(s, a.metadataPatch, now);
    }
  }

  /** Every action keeps at most one of node and edge selected. */
  lemma ActionsKeepSelectionExclusive(s: Store, a: Action, now: string)
    requires SelectionExclusive(s)
    ensures Perform(s, a, now).Ok? ==> SelectionExclusive(Perform(s, a, now).value)
  {
  }

  /** Performs the actions in order, stopping at the first rejected one. */
  function PerformAll(s: Store, actions: seq<Action>, now: string): Result<Store, Dfa.DfaError>
    decreases |actions|
  {
    if |actions| == 0 then Ok(s)
    else match Perform(s, actions[0], now)
      case Err(e) => Err(e)
      case Ok(s') => PerformAll(s', actions[1..], now)
  }

  /** Any sequence of accepted actions from a store that satisfies both
      invariants (as `Init` does) keeps them. */
  lemma {:induction false} PerformAllKeepsInvariants(s: Store, actions: seq<Action>, now: string)
    requires SelectionExclusive(s) && CacheFresh(s)
    ensures PerformAll(s, actions, now).Ok? ==>
      SelectionExclusive(PerformAll(s, actions, now).value) && CacheFresh(PerformAll(s, actions, now).value)
    decreases |actions|
  {
    if |actions| > 0 {
      ActionsKeepCacheFresh(s, actions[0], now);
      ActionsKeepSelectionExclusive(s, actions[0], now);
      if Perform(s, actions[0], now).Ok? {
        PerformAllKeepsInvariants(Perform(s, actions[0], now).value, actions[1..], now);
      }
    }
  }

  /** The store's actions keep "at most one initial state": adding and
      updating states demote the others, removal only drops states, and the
      re-wrap does not touch the states. */
  lemma ActionsKeepSingleInitial(s: Store, state: State, id: string, sp: Dfa.StatePatch, now: string)
    requires Count(s.dfa.states, IsInitialState) <= 1
    ensures Count(AddState(s, state, now).dfa.states, IsInitialState) <= 1
    ensures UpdateState(s, id, sp, now).Ok? ==> Count(UpdateState(s, id, sp, now).value.dfa.states, IsInitialState) <= 1
    ensures Count(RemoveState(s, id, now).dfa.states, IsInitialState) <= 1
  {
    var removed := Dfa.RemoveState(s.dfa, id, now).states;
    CountOfSubsequence(removed, s.dfa.states, IsInitialState);
  }
}
