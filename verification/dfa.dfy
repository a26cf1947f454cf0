/** The automaton model (`DFA` class): construction defaults, CRUD over
    states and transitions, alphabet and metadata updates, and the lookups
    the validator and the simulator share. Every mutator is a pure function
    from the old definition to the new one; the clock reading that the
    source takes from `new Date()` is the parameter `now`. A rejected call
    returns `Err` and so leaves the definition as it was: in the source
    every check runs before anything is written. */
module Dfa {
  import opened Wrappers
  import opened Collections
  import opened DfaTypes

  const DefaultAlphabet: seq<string> := ["0", "1"]
  const DefaultName: string := "Untitled DFA"

  /** The errors the mutators throw. */
  datatype DfaError =
    | StateNotFound(stateId: string)
    | SourceStateNotFound(stateId: string)
    | TargetStateNotFound(stateId: string)
    | TransitionNotFound(transitionId: string)
    | SymbolNotInAlphabet(symbol: string, alphabet: seq<string>)
    | EmptyAlphabet
    | MultiCharSymbol(symbol: string)

  /** `Partial<DFAState>`: the fields an update overrides. */
  datatype StatePatch = StatePatch(
    id: Option<string>,
    labelText: Option<string>,
    kind: Option<StateType>,
    position: Option<Position>)

  /** `Partial<DFATransition>`. */
  datatype TransitionPatch = TransitionPatch(
    id: Option<string>,
    from: Option<string>,
    to: Option<string>,
    symbol: Option<string>)

  /** `Partial<DFADefinition['metadata']>`. */
  datatype MetadataPatch = MetadataPatch(
    name: Option<string>,
    description: Option<string>,
    createdAt: Option<string>,
    modifiedAt: Option<string>)

  function Or<T>(o: Option<T>, fallback: T): T {
    match o
    case Some(v) => v
    case None => fallback
  }

  /** JavaScript's `s || fallback` on a string: the empty string is falsy. */
  function OrIfEmpty(s: string, fallback: string): (r: string)
    ensures r == if s == "" then fallback else s
  {
    if s == "" then fallback else s
  }

  function Touch(d: Definition, now: string): Definition {
    d.(metadata := d.metadata.(modifiedAt := now))
  }

  // ========== Construction ==========

  /** `new DFA()` (`init` absent) or `new DFA(definition)`: collections are
      taken as given, an empty name becomes the default name, an empty
      creation time becomes `now`, and the modification time is always
      `now`. */
  function New(init: Option<Definition>, now: string): (d: Definition)
    ensures d.metadata.name != "" && d.metadata.modifiedAt == now
    ensures init.None? ==>
      d == Definition([], [], DefaultAlphabet, Metadata(DefaultName, "", now, now))
    ensures init.Some? ==>
      && d.states == init.value.states
      && d.transitions == init.value.transitions
      && d.alphabet == init.value.alphabet
      && d.metadata.description == init.value.metadata.description
    ensures init.Some? && init.value.metadata.name != "" ==>
      d.metadata.name == init.value.metadata.name
    ensures init.Some? && init.value.metadata.createdAt != "" ==>
      d.metadata.createdAt == init.value.metadata.createdAt
    ensures init.Some? && init.value.metadata.name == "" ==> d.metadata.name == DefaultName
    ensures init.Some? && init.value.metadata.createdAt == "" ==> d.metadata.createdAt == now
  {
    match init
    case None =>
      Definition([], [], DefaultAlphabet, Metadata(DefaultName, "", now, now))
    case Some(def) =>
      Definition(
        def.states, def.transitions, def.alphabet,
        Metadata(
          OrIfEmpty(def.metadata.name, DefaultName),
          def.metadata.description,
          OrIfEmpty(def.metadata.createdAt, now),
          now))
  }

  /** Re-wrapping a constructed definition at the same clock reading changes
      nothing: the store's `new DFA(dfa.getDefinition())` after a fresh
      construction is the identity. */
  lemma NewIsIdempotent(init: Option<Definition>, now: string)
    ensures New(Some(New(init, now)), now) == New(init, now)
  {
  }

  // ========== Lookups ==========

  predicate HasState(states: seq<State>, id: string) {
    exists i :: 0 <= i < |states| && states[i].id == id
  }

  predicate HasTransition(transitions: seq<Transition>, id: string) {
    exists i :: 0 <= i < |transitions| && transitions[i].id == id
  }

  /** `states.findIndex(s => s.id === id)`. */
  function StateIndex(states: seq<State>, id: string): (r: Option<nat>)
    ensures r.None? <==> !HasState(states, id)
    ensures r.Some? ==> r.value < |states| && states[r.value].id == id
    ensures r.Some? ==> forall j :: 0 <= j < r.value ==> states[j].id != id
  {
    FindIndex(states, (s: State) => s.id == id)
  }

  /** `getState`: the first state carrying `id`. */
  function GetState(states: seq<State>, id: string): (r: Option<State>)
    ensures r.None? <==> !HasState(states, id)
    ensures r.Some? ==> r.value.id == id && r.value in states
    ensures r.Some? ==> r.value == states[StateIndex(states, id).value]
  {
    match StateIndex(states, id)
    case None => None
    case Some(i) => Some(states[i])
  }

  /** `transitions.findIndex(t => t.id === id)`. */
  function TransitionIndex(transitions: seq<Transition>, id: string): (r: Option<nat>)
    ensures r.None? <==> !HasTransition(transitions, id)
    ensures r.Some? ==> r.value < |transitions| && transitions[r.value].id == id
    ensures r.Some? ==> forall j :: 0 <= j < r.value ==> transitions[j].id != id
  {
    FindIndex(transitions, (t: Transition) => t.id == id)
  }

  /** `getTransition`: the first transition carrying `id`. */
  function GetTransition(transitions: seq<Transition>, id: string): (r: Option<Transition>)
    ensures r.None? <==> !HasTransition(transitions, id)
    ensures r.Some? ==> r.value.id == id && r.value in transitions
    ensures r.Some? ==> r.value == transitions[TransitionIndex(transitions, id).value]
  {
    match TransitionIndex(transitions, id)
    case None => None
    case Some(i) => Some(transitions[i])
  }

  /** Position of the first initial-bearing state. */
  function InitialIndex(states: seq<State>): (r: Option<nat>)
    ensures r.None? <==> forall i :: 0 <= i < |states| ==> !IsInitialState(states[i])
    ensures r.Some? ==> r.value < |states| && IsInitialState(states[r.value])
    ensures r.Some? ==> forall j :: 0 <= j < r.value ==> !IsInitialState(states[j])
  {
    FindIndex(states, IsInitialState)
  }

  /** `getInitialState`: the first initial-bearing state, or null. */
  function GetInitialState(states: seq<State>): (r: Option<State>)
    ensures r.None? <==> forall i :: 0 <= i < |states| ==> !IsInitialState(states[i])
    ensures r.Some? ==> exists i :: (0 <= i < |states| && states[i] == r.value
      && IsInitialState(r.value)
      && forall j :: 0 <= j < i ==> !IsInitialState(states[j]))
  {
    match InitialIndex(states)
    case None => None
    case Some(i) => Some(states[i])
  }

  /** `getAcceptingStates`: the accepting-bearing states in order, each
      entry as often as it occurs. */
  function GetAcceptingStates(states: seq<State>): (r: seq<State>)
    ensures Subsequence(r, states) && |r| == Count(states, IsAcceptingState)
    ensures forall i :: 0 <= i < |r| ==> IsAcceptingState(r[i])
    ensures forall s :: s in r <==> s in states && IsAcceptingState(s)
  {
    Filter(states, IsAcceptingState)
  }

  /** Selectors for the `filter` calls below. */
  function LeavesState(stateId: string): Transition -> bool {
    (t: Transition) => t.from == stateId
  }

  function OtherThan(id: string): State -> bool {
    (s: State) => s.id != id
  }

  function Avoids(id: string): Transition -> bool {
    (t: Transition) => !Touches(t, id)
  }

  function NotNamed(id: string): Transition -> bool {
    (t: Transition) => t.id != id
  }

  /** `getTransitionsFromState`: the transitions leaving the state, in
      order, each entry as often as it occurs. */
  function GetTransitionsFromState(transitions: seq<Transition>, stateId: string): (r: seq<Transition>)
    ensures Subsequence(r, transitions) && |r| == Count(transitions, LeavesState(stateId))
    ensures forall i :: 0 <= i < |r| ==> r[i].from == stateId
    ensures forall t :: t in r <==> t in transitions && t.from == stateId
  {
    Filter(transitions, LeavesState(stateId))
  }

  predicate Leaves(t: Transition, from: string, symbol: string) {
    t.from == from && t.symbol == symbol
  }

  /** `getTransitionForSymbol`: the first transition, in list order, from
      `from` labelled `symbol` (the simulator uses the same search). */
  function GetTransitionForSymbol(transitions: seq<Transition>, from: string, symbol: string)
    : (r: Option<Transition>)
    ensures r.None? <==> forall i :: 0 <= i < |transitions| ==> !Leaves(transitions[i], from, symbol)
    ensures r.Some? ==> exists i :: (0 <= i < |transitions| && transitions[i] == r.value
      && Leaves(r.value, from, symbol)
      && forall j :: 0 <= j < i ==> !Leaves(transitions[j], from, symbol))
  {
    match FindIndex(transitions, (t: Transition) => Leaves(t, from, symbol))
    case None => None
    case Some(i) => Some(transitions[i])
  }

  // ========== State operations ==========

  /** Demotion of a former initial state: `initial` becomes `normal`,
      `initial-accepting` becomes `accepting`. */
  function DemoteState(s: State): (r: State)
    ensures !IsInitialState(r)
    ensures IsAcceptingState(r) <==> IsAcceptingState(s)
    ensures r.id == s.id && r.labelText == s.labelText && r.position == s.position
    ensures !IsInitialState(s) ==> r == s
  {
    match s.kind
    case Initial => s.(kind := Normal)
    case InitialAccepting => s.(kind := Accepting)
    case _ => s
  }

  function DemoteAll(states: seq<State>): (r: seq<State>)
    ensures |r| == |states|
    ensures forall i :: 0 <= i < |states| ==> r[i] == DemoteState(states[i])
    ensures Count(r, IsInitialState) == 0
  {
    var r := seq(|states|, i requires 0 <= i < |states| => DemoteState(states[i]));
    CountZero(r, IsInitialState);
    r
  }

  /** `addState`: an initial-bearing newcomer demotes every existing state
      first; the new state goes last. The number of initial-bearing states
      afterwards is 1 for an initial-bearing newcomer and unchanged
      otherwise, so "at most one initial state" is kept. */
  function AddState(d: Definition, s: State, now: string): (r: Definition)
    ensures |r.states| == |d.states| + 1 && r.states[|d.states|] == s
    ensures forall i :: 0 <= i < |d.states| ==>
      r.states[i] == if IsInitialState(s) then DemoteState(d.states[i]) else d.states[i]
    ensures Count(r.states, IsInitialState)
         == if IsInitialState(s) then 1 else Count(d.states, IsInitialState)
    ensures Count(d.states, IsInitialState) <= 1 ==> Count(r.states, IsInitialState) <= 1
    ensures r.transitions == d.transitions && r.alphabet == d.alphabet
    ensures r.metadata == d.metadata.(modifiedAt := now)
  {
    var kept := if IsInitialState(s) then DemoteAll(d.states) else d.states;
    CountConcat(kept, [s], IsInitialState);
    assert Count([s], IsInitialState) == Count([s][..0], IsInitialState) + (if IsInitialState(s) then 1 else 0);
    Touch(d.(states := kept + [s]), now)
  }

  predicate Touches(t: Transition, stateId: string) {
    t.from == stateId || t.to == stateId
  }

  /** The states that do not carry `id`, in order, each as often as it
      occurs: a subsequence of kept entries as long as the number of kept
      entries is exactly the filtered list. */
  function StatesWithout(states: seq<State>, id: string): (r: seq<State>)
    ensures Subsequence(r, states) && |r| == Count(states, OtherThan(id))
    ensures forall s :: s in r <==> s in states && s.id != id
    ensures !HasState(r, id)
    ensures !HasState(states, id) ==> r == states
  {
    FilterKeepsAll(states, OtherThan(id));
    var r := Filter(states, OtherThan(id));
    assert forall i :: 0 <= i < |r| ==> r[i] in r;
    r
  }

  /** The transitions that neither start nor end at `id`, in order, each as
      often as it occurs. */
  function TransitionsAvoiding(transitions: seq<Transition>, id: string): (r: seq<Transition>)
    ensures Subsequence(r, transitions) && |r| == Count(transitions, Avoids(id))
    ensures forall i :: 0 <= i < |r| ==> !Touches(r[i], id)
    ensures forall t :: t in r <==> t in transitions && !Touches(t, id)
    ensures (forall i :: 0 <= i < |transitions| ==> !Touches(transitions[i], id)) ==> r == transitions
  {
    FilterKeepsAll(transitions, Avoids(id));
    Filter(transitions, Avoids(id))
  }

  /** `removeState`: drops every state carrying `id` and, in cascade, every
      transition that starts or ends there; everything else keeps its
      relative order. An unknown id leaves the states as they were (and
      the transitions too unless some dangle towards that id). */
  function RemoveState(d: Definition, id: string, now: string): (r: Definition)
    ensures Subsequence(r.states, d.states) && Subsequence(r.transitions, d.transitions)
    ensures |r.states| == Count(d.states, OtherThan(id))
    ensures |r.transitions| == Count(d.transitions, Avoids(id))
    ensures forall s :: s in r.states <==> s in d.states && s.id != id
    ensures forall t :: t in r.transitions <==> t in d.transitions && !Touches(t, id)
    ensures !HasState(r.states, id)
    ensures !HasState(d.states, id) ==> r.states == d.states
    ensures (forall i :: 0 <= i < |d.transitions| ==> !Touches(d.transitions[i], id)) ==>
      r.transitions == d.transitions
    ensures r.alphabet == d.alphabet && r.metadata == d.metadata.(modifiedAt := now)
  {
    Touch(d.(states := StatesWithout(d.states, id), transitions := TransitionsAvoiding(d.transitions, id)), now)
  }

  /** `{ ...s, ...updates }`. */
  function MergeState(s: State, p: StatePatch): State {
    State(Or(p.id, s.id), Or(p.labelText, s.labelText), Or(p.kind, s.kind), Or(p.position, s.position))
  }

  /** `updateState`: an unknown id throws. Otherwise only the first state
      carrying `id` is replaced by the merged record, except that every
      other state is demoted when the merge turns the state into a
      different initial-bearing kind. "At most one initial state" is kept.
      The merge may change the state's id; transitions are not touched. */
  function UpdateState(d: Definition, id: string, patch: StatePatch, now: string)
    : (r: Result<Definition, DfaError>)
    ensures r.Err? <==> !HasState(d.states, id)
    ensures r.Err? ==> r.error == StateNotFound(id)
    ensures r.Ok? ==>
      var i := StateIndex(d.states, id).value;
      var merged := MergeState(d.states[i], patch);
      var demote := IsInitialState(merged) && merged.kind != d.states[i].kind;
      && |r.value.states| == |d.states|
      && r.value.states[i] == merged
      && forall j :: 0 <= j < |d.states| && j != i ==>
           r.value.states[j] == if demote then DemoteState(d.states[j]) else d.states[j]
    ensures r.Ok? && Count(d.states, IsInitialState) <= 1 ==>
      Count(r.value.states, IsInitialState) <= 1
    ensures r.Ok? ==>
      && r.value.transitions == d.transitions
      && r.value.alphabet == d.alphabet
      && r.value.metadata == d.metadata.(modifiedAt := now)
  {
    match StateIndex(d.states, id)
    case None => Err(StateNotFound(id))
    case Some(i) =>
      var previous := d.states[i];
      var merged := MergeState(previous, patch);
      if IsInitialState(merged) && previous.kind != merged.kind then
        var states := DemoteAll(d.states)[i := merged];
        CountUpdate(DemoteAll(d.states), i, merged, IsInitialState);
        Ok(Touch(d.(states := states), now))
      else
        CountUpdate(d.states, i, merged, IsInitialState);
        Ok(Touch(d.(states := d.states[i := merged]), now))
  }

  // ========== Transition operations ==========

  /** `addTransition`: the source state must exist, then the target state,
      then the symbol must be in the alphabet; the first failing check is
      the error. On success exactly `t` is appended, even when another
      transition already leaves `t.from` on `t.symbol`. */
  function AddTransition(d: Definition, t: Transition, now: string): (r: Result<Definition, DfaError>)
    ensures r.Ok? <==> HasState(d.states, t.from) && HasState(d.states, t.to) && t.symbol in d.alphabet
    ensures !HasState(d.states, t.from) ==> r == Err(SourceStateNotFound(t.from))
    ensures HasState(d.states, t.from) && !HasState(d.states, t.to) ==>
      r == Err(TargetStateNotFound(t.to))
    ensures HasState(d.states, t.from) && HasState(d.states, t.to) && t.symbol !in d.alphabet ==>
      r == Err(SymbolNotInAlphabet(t.symbol, d.alphabet))
    ensures r.Ok? ==>
      && r.value.transitions == d.transitions + [t]
      && r.value.states == d.states
      && r.value.alphabet == d.alphabet
      && r.value.metadata == d.metadata.(modifiedAt := now)
  {
    if GetState(d.states, t.from).None? then Err(SourceStateNotFound(t.from))
    else if GetState(d.states, t.to).None? then Err(TargetStateNotFound(t.to))
    else if t.symbol !in d.alphabet then Err(SymbolNotInAlphabet(t.symbol, d.alphabet))
    else Ok(Touch(d.(transitions := d.transitions + [t]), now))
  }

  /** `removeTransition`: drops every transition carrying `id`; an unknown
      id leaves the transitions as they were. */
  function RemoveTransition(d: Definition, id: string, now: string): (r: Definition)
    ensures Subsequence(r.transitions, d.transitions)
    ensures |r.transitions| == Count(d.transitions, NotNamed(id))
    ensures forall i :: 0 <= i < |r.transitions| ==> r.transitions[i].id != id
    ensures forall t :: t in r.transitions <==> t in d.transitions && t.id != id
    ensures !HasTransition(d.transitions, id) ==> r.transitions == d.transitions
    ensures r.states == d.states && r.alphabet == d.alphabet
    ensures r.metadata == d.metadata.(modifiedAt := now)
  {
    FilterKeepsAll(d.transitions, NotNamed(id));
    Touch(d.(transitions := Filter(d.transitions, NotNamed(id))), now)
  }

  /** `{ ...t, ...updates }`. */
  function MergeTransition(t: Transition, p: TransitionPatch): Transition {
    Transition(Or(p.id, t.id), Or(p.from, t.from), Or(p.to, t.to), Or(p.symbol, t.symbol))
  }

  /** The symbol check of `updateTransition`: only a truthy (non-empty) new
      symbol is looked up in the alphabet. */
  predicate RejectsSymbol(patch: TransitionPatch, alphabet: seq<string>) {
    patch.symbol.Some? && patch.symbol.value != "" && patch.symbol.value !in alphabet
  }

  /** `updateTransition`: an unknown id throws; a non-empty new symbol
      outside the alphabet throws. Nothing else is checked: a new `from` or
      `to` need not name a state, and an empty new symbol is accepted. On
      success only the first transition carrying `id` changes. */
  function UpdateTransition(d: Definition, id: string, patch: TransitionPatch, now: string)
    : (r: Result<Definition, DfaError>)
    ensures r.Err? <==> !HasTransition(d.transitions, id) || RejectsSymbol(patch, d.alphabet)
    ensures !HasTransition(d.transitions, id) ==> r == Err(TransitionNotFound(id))
    ensures HasTransition(d.transitions, id) && RejectsSymbol(patch, d.alphabet) ==>
      r == Err(SymbolNotInAlphabet(patch.symbol.value, d.alphabet))
    ensures r.Ok? ==>
      var i := TransitionIndex(d.transitions, id).value;
      && |r.value.transitions| == |d.transitions|
      && r.value.transitions[i] == MergeTransition(d.transitions[i], patch)
      && (forall j :: 0 <= j < |d.transitions| && j != i ==> r.value.transitions[j] == d.transitions[j])
      && r.value.states == d.states
      && r.value.alphabet == d.alphabet
      && r.value.metadata == d.metadata.(modifiedAt := now)
  {
    match TransitionIndex(d.transitions, id)
    case None => Err(TransitionNotFound(id))
    case Some(i) =>
      if RejectsSymbol(patch, d.alphabet) then Err(SymbolNotInAlphabet(patch.symbol.value, d.alphabet))
      else Ok(Touch(d.(transitions := d.transitions[i := MergeTransition(d.transitions[i], patch)]), now))
  }

  // ========== Alphabet, metadata, clear ==========

  predicate NotSingleChar(symbol: string) {
    |symbol| != 1
  }

  /** `setAlphabet`: an empty list throws, then the first symbol that is not
      exactly one character throws. On success the alphabet holds the
      distinct symbols in first-occurrence order; states and transitions
      are untouched, even transitions whose symbol is no longer in it. */
  function SetAlphabet(d: Definition, symbols: seq<string>, now: string): (r: Result<Definition, DfaError>)
    ensures r.Ok? <==> |symbols| > 0 && forall i :: 0 <= i < |symbols| ==> |symbols[i]| == 1
    ensures |symbols| == 0 ==> r == Err(EmptyAlphabet)
    ensures r.Err? && |symbols| > 0 ==> exists k :: (0 <= k < |symbols|
      && r == Err(MultiCharSymbol(symbols[k]))
      && |symbols[k]| != 1
      && forall j :: 0 <= j < k ==> |symbols[j]| == 1)
    ensures r.Ok? ==>
      && Distinct(r.value.alphabet)
      && (forall x :: x in r.value.alphabet <==> x in symbols)
      && (forall i, j :: 0 <= i < j < |r.value.alphabet| ==>
            FirstIndex(symbols, r.value.alphabet[i]) < FirstIndex(symbols, r.value.alphabet[j]))
      && r.value.states == d.states
      && r.value.transitions == d.transitions
      && r.value.metadata == d.metadata.(modifiedAt := now)
  {
    if |symbols| == 0 then Err(EmptyAlphabet)
    else match FindIndex(symbols, NotSingleChar)
      case Some(k) => Err(MultiCharSymbol(symbols[k]))
      case None => Ok(Touch(d.(alphabet := Dedup(symbols)), now))
  }

  /** `updateMetadata`: patched fields are overwritten, then the
      modification time is set to `now` whatever the patch said. */
  function UpdateMetadata(d: Definition, patch: MetadataPatch, now: string): (r: Definition)
    ensures r.states == d.states && r.transitions == d.transitions && r.alphabet == d.alphabet
    ensures r.metadata.modifiedAt == now
    ensures r.metadata.name == Or(patch.name, d.metadata.name)
    ensures r.metadata.description == Or(patch.description, d.metadata.description)
    ensures r.metadata.createdAt == Or(patch.createdAt, d.metadata.createdAt)
  {
    var m := d.metadata;
    var merged := Metadata(Or(patch.name, m.name), Or(patch.description, m.description),
                           Or(patch.createdAt, m.createdAt), Or(patch.modifiedAt, m.modifiedAt));
    Touch(d.(metadata := merged), now)
  }

  /** `clear`: no states, no transitions; the alphabet, name, description
      and creation time stay. */
  function Clear(d: Definition, now: string): (r: Definition)
    ensures r.states == [] && r.transitions == []
    ensures r.alphabet == d.alphabet
    ensures r.metadata == d.metadata.(modifiedAt := now)
  {
    Touch(d.(states := [], transitions := []), now)
  }
}
