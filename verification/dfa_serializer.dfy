/** Import and export of automata (core/dfa/DFASerializer.ts): the schema
    check applied to a parsed JSON value, the mapping of its failures, and
    the JSON value `JSON.stringify` writes for a definition. */
module DfaSerializer {
  import opened Wrappers
  import opened Json
  import opened DfaTypes

  // ----- Errors -----

  /** The failures of one state entry, in the order they are tested. */
  datatype StateError = StateNotObject | NoStateId | NoStateLabel | BadStateType | BadPosition

  /** The failures of one transition entry, in the order they are tested. */
  datatype TransitionError = TransitionNotObject | NoTransitionId | NoFrom | NoTo | NoSymbol

  /** One constructor per message the schema check can throw. */
  datatype SchemaError =
    | NotAnObject
    | NoStatesArray
    | BadState(stateError: StateError)
    | NoTransitionsArray
    | BadTransition(transitionError: TransitionError)
    | NoAlphabetArray
    | AlphabetEmpty
    | NonStringSymbol
    | NoMetadataObject
    | NoName
    | NoDescription
    | NoCreatedAt
    | NoModifiedAt

  /** What `fromJSON` throws: a syntax error is reported as an invalid
      format, a schema failure is passed on unchanged. */
  datatype LoadError = InvalidJsonFormat | Invalid(schemaError: SchemaError)

  // ----- Type tags -----

  function KindName(k: StateType): (r: string)
    ensures KindOf(r) == Some(k)
  {
    match k
    case Normal => "normal"
    case Initial => "initial"
    case Accepting => "accepting"
    case InitialAccepting => "initial-accepting"
  }

  /** The state kind a type tag names, if it is one of the four. */
  function KindOf(name: string): (r: Option<StateType>)
    ensures r.Some? <==> name == "normal" || name == "initial" || name == "accepting" || name == "initial-accepting"
  {
    if name == "normal" then Some(Normal)
    else if name == "initial" then Some(Initial)
    else if name == "accepting" then Some(Accepting)
    else if name == "initial-accepting" then Some(InitialAccepting)
    else None
  }

  // ----- The schema, declaratively -----

  predicate HasKind(v: Json) {
    HasString(v, "type") && KindOf(Field(v, "type").value.s).Some?
  }

  predicate HasPosition(v: Json) {
    HasObject(v, "position")
    && HasNumber(Field(v, "position").value, "x")
    && HasNumber(Field(v, "position").value, "y")
  }

  /** A state entry the schema admits. */
  predicate WellTypedState(v: Json) {
    IsObject(v) && HasString(v, "id") && HasString(v, "label") && HasKind(v) && HasPosition(v)
  }

  /** A transition entry the schema admits. */
  predicate WellTypedTransition(v: Json) {
    IsObject(v) && HasString(v, "id") && HasString(v, "from") && HasString(v, "to") && HasString(v, "symbol")
  }

  predicate WellTypedAlphabet(v: Json) {
    && HasArray(v, "alphabet")
    && |Field(v, "alphabet").value.items| > 0
    && forall i :: 0 <= i < |Field(v, "alphabet").value.items| ==> Field(v, "alphabet").value.items[i].JString?
  }

  predicate WellTypedMetadata(v: Json) {
    && HasObject(v, "metadata")
    && HasString(Field(v, "metadata").value, "name")
    && HasString(Field(v, "metadata").value, "description")
    && HasString(Field(v, "metadata").value, "createdAt")
    && HasString(Field(v, "metadata").value, "modifiedAt")
  }

  /** A value the schema admits: an object with a states array of state
      entries, a transitions array of transition entries, a non-empty
      alphabet array of strings (of any length, repeats allowed) and a
      metadata object with four string fields. */
  predicate WellTypedDefinition(v: Json) {
    && IsObject(v)
    && HasArray(v, "states")
    && (forall i :: 0 <= i < |Field(v, "states").value.items| ==> WellTypedState(Field(v, "states").value.items[i]))
    && HasArray(v, "transitions")
    && (forall i :: 0 <= i < |Field(v, "transitions").value.items| ==> WellTypedTransition(Field(v, "transitions").value.items[i]))
    && WellTypedAlphabet(v)
    && WellTypedMetadata(v)
  }

  // ----- The schema check -----

  /** `validateState`: the first failing test of a state entry. */
  function ValidateState(v: Json): (r: Outcome<SchemaError>)
    ensures r.Pass? <==> WellTypedState(v)
    ensures r.Fail? ==> r.error.BadState?
    ensures r == Fail(BadState(StateNotObject)) <==> !IsObject(v)
    ensures r == Fail(BadState(NoStateId)) <==> IsObject(v) && !HasString(v, "id")
    ensures r == Fail(BadState(NoStateLabel)) <==>
      IsObject(v) && HasString(v, "id") && !HasString(v, "label")
    ensures r == Fail(BadState(BadStateType)) <==>
      IsObject(v) && HasString(v, "id") && HasString(v, "label") && !HasKind(v)
    ensures r == Fail(BadState(BadPosition)) <==>
      IsObject(v) && HasString(v, "id") && HasString(v, "label") && HasKind(v) && !HasPosition(v)
  {
    if !IsObject(v) then Fail(BadState(StateNotObject))
    else if !HasString(v, "id") then Fail(BadState(NoStateId))
    else if !HasString(v, "label") then Fail(BadState(NoStateLabel))
    else if !HasKind(v) then Fail(BadState(BadStateType))
    else if !HasPosition(v) then Fail(BadState(BadPosition))
    else Pass
  }

  /** `validateTransition`: the first failing test of a transition entry. */
  function ValidateTransition(v: Json): (r: Outcome<SchemaError>)
    ensures r.Pass? <==> WellTypedTransition(v)
    ensures r.Fail? ==> r.error.BadTransition?
    ensures r == Fail(BadTransition(TransitionNotObject)) <==> !IsObject(v)
    ensures r == Fail(BadTransition(NoTransitionId)) <==> IsObject(v) && !HasString(v, "id")
    ensures r == Fail(BadTransition(NoFrom)) <==>
      IsObject(v) && HasString(v, "id") && !HasString(v, "from")
    ensures r == Fail(BadTransition(NoTo)) <==>
      IsObject(v) && HasString(v, "id") && HasString(v, "from") && !HasString(v, "to")
    ensures r == Fail(BadTransition(NoSymbol)) <==>
      IsObject(v) && HasString(v, "id") && HasString(v, "from") && HasString(v, "to") && !HasString(v, "symbol")
  {
    if !IsObject(v) then Fail(BadTransition(TransitionNotObject))
    else if !HasString(v, "id") then Fail(BadTransition(NoTransitionId))
    else if !HasString(v, "from") then Fail(BadTransition(NoFrom))
    else if !HasString(v, "to") then Fail(BadTransition(NoTo))
    else if !HasString(v, "symbol") then Fail(BadTransition(NoSymbol))
    else Pass
  }

  /** A `for ... of` loop of checks: the first entry that fails decides. */
  function CheckEach(items: seq<Json>, check: Json -> Outcome<SchemaError>): (r: Outcome<SchemaError>)
    ensures r.Pass? <==> forall i :: 0 <= i < |items| ==> check(items[i]).Pass?
    ensures r.Fail? ==> exists i :: (0 <= i < |items| && check(items[i]) == r
      && forall j :: 0 <= j < i ==> check(items[j]).Pass?)
    decreases |items|
  {
    if |items| == 0 then Pass
    else match check(items[0])
      case Fail(e) => Fail(e)
      case Pass =>
        var r := CheckEach(items[1..], check);
        assert forall i :: 0 <= i < |items| - 1 ==> items[1..][i] == items[i + 1];
        r
  }

  function CheckAlphabet(symbols: seq<Json>): (r: Outcome<SchemaError>)
    ensures r.Pass? <==> |symbols| > 0 && forall i :: 0 <= i < |symbols| ==> symbols[i].JString?
    ensures r.Fail? ==> r.error == AlphabetEmpty || r.error == NonStringSymbol
    ensures r == Fail(AlphabetEmpty) <==> |symbols| == 0
    ensures r == Fail(NonStringSymbol) <==> |symbols| > 0 && exists i :: 0 <= i < |symbols| && !symbols[i].JString?
  {
    if |symbols| == 0 then Fail(AlphabetEmpty)
    else if exists i :: 0 <= i < |symbols| && !symbols[i].JString? then Fail(NonStringSymbol)
    else Pass
  }

  function CheckMetadata(m: Json): (r: Outcome<SchemaError>)
    ensures r.Pass? <==> HasString(m, "name") && HasString(m, "description")
                          && HasString(m, "createdAt") && HasString(m, "modifiedAt")
    ensures r == Fail(NoName) <==> !HasString(m, "name")
    ensures r == Fail(NoDescription) <==> HasString(m, "name") && !HasString(m, "description")
    ensures r == Fail(NoCreatedAt) <==>
      HasString(m, "name") && HasString(m, "description") && !HasString(m, "createdAt")
    ensures r == Fail(NoModifiedAt) <==>
      HasString(m, "name") && HasString(m, "description") && HasString(m, "createdAt")
      && !HasString(m, "modifiedAt")
  {
    if !HasString(m, "name") then Fail(NoName)
    else if !HasString(m, "description") then Fail(NoDescription)
    else if !HasString(m, "createdAt") then Fail(NoCreatedAt)
    else if !HasString(m, "modifiedAt") then Fail(NoModifiedAt)
    else Pass
  }

  /** Every state entry passes `validateState`. */
  predicate StatesPass(v: Json) {
    HasArray(v, "states")
    && forall i :: 0 <= i < |Field(v, "states").value.items| ==> WellTypedState(Field(v, "states").value.items[i])
  }

  /** Every transition entry passes `validateTransition`. */
  predicate TransitionsPass(v: Json) {
    HasArray(v, "transitions")
    && forall i :: 0 <= i < |Field(v, "transitions").value.items| ==> WellTypedTransition(Field(v, "transitions").value.items[i])
  }

  /** Every test before the metadata passes. */
  predicate PassesUpToMetadata(v: Json) {
    IsObject(v) && StatesPass(v) && TransitionsPass(v) && WellTypedAlphabet(v)
  }

  /** `i` is the first entry of `items` that fails `ok`. */
  predicate FirstFailing(items: seq<Json>, i: int, ok: Json -> bool) {
    0 <= i < |items| && !ok(items[i]) && forall j :: 0 <= j < i ==> ok(items[j])
  }

  /** The alphabet and metadata tests, reached once the states and the
      transitions have passed. */
  function CheckAlphabetAndMetadata(v: Json): (r: Outcome<SchemaError>)
    requires IsObject(v)
    ensures r.Pass? <==> WellTypedAlphabet(v) && WellTypedMetadata(v)
    ensures r == Fail(NoAlphabetArray) <==> !HasArray(v, "alphabet")
    ensures r == Fail(AlphabetEmpty) <==> HasArray(v, "alphabet") && |Field(v, "alphabet").value.items| == 0
    ensures r == Fail(NonStringSymbol) <==>
      HasArray(v, "alphabet") && |Field(v, "alphabet").value.items| > 0 && !WellTypedAlphabet(v)
    ensures r == Fail(NoMetadataObject) <==> WellTypedAlphabet(v) && !HasObject(v, "metadata")
    ensures WellTypedAlphabet(v) && HasObject(v, "metadata") ==> r == CheckMetadata(Field(v, "metadata").value)
    ensures r.Fail? ==> !r.error.BadState? && !r.error.BadTransition? && r.error != NotAnObject
                        && r.error != NoStatesArray && r.error != NoTransitionsArray
  {
    if !HasArray(v, "alphabet") then Fail(NoAlphabetArray)
    else match CheckAlphabet(Field(v, "alphabet").value.items)
      case Fail(e) => Fail(e)
      case Pass =>
        if !HasObject(v, "metadata") then Fail(NoMetadataObject)
        else CheckMetadata(Field(v, "metadata").value)
  }

  /** The tests from the transitions array on, reached once every state
      entry has passed. */
  function CheckFromTransitions(v: Json): (r: Outcome<SchemaError>)
    requires IsObject(v)
    ensures r.Pass? <==> TransitionsPass(v) && WellTypedAlphabet(v) && WellTypedMetadata(v)
    ensures r == Fail(NoTransitionsArray) <==> !HasArray(v, "transitions")
    ensures r.Fail? && r.error.BadTransition? <==> HasArray(v, "transitions") && !TransitionsPass(v)
    ensures r.Fail? && r.error.BadTransition? ==>
      exists i :: FirstFailing(Field(v, "transitions").value.items, i, WellTypedTransition)
                  && r == ValidateTransition(Field(v, "transitions").value.items[i])
    ensures TransitionsPass(v) ==> r == CheckAlphabetAndMetadata(v)
    ensures r.Fail? ==> !r.error.BadState? && r.error != NotAnObject && r.error != NoStatesArray
  {
    if !HasArray(v, "transitions") then Fail(NoTransitionsArray)
    else
      var transitions := Field(v, "transitions").value.items;
      match CheckEach(transitions, ValidateTransition)
      case Fail(e) => Fail(e)
      case Pass => CheckAlphabetAndMetadata(v)
  }

  /** `validateSchema`: passes exactly on the values the schema admits, and
      otherwise reports the first failing test in source order: the object
      test, the states array, each state entry in turn, the transitions
      array, each transition entry in turn, the alphabet array, its
      emptiness, its symbols, the metadata object, then its four fields.
      A failing entry reports its own first failing test. The later stages
      are `CheckFromTransitions` and `CheckAlphabetAndMetadata`. */
  function ValidateSchema(v: Json): (r: Outcome<SchemaError>)
    ensures r.Pass? <==> WellTypedDefinition(v)
    ensures r == Fail(NotAnObject) <==> !IsObject(v)
    ensures r == Fail(NoStatesArray) <==> IsObject(v) && !HasArray(v, "states")
    ensures r.Fail? && r.error.BadState? <==> IsObject(v) && HasArray(v, "states") && !StatesPass(v)
    ensures r.Fail? && r.error.BadState? ==>
      exists i :: FirstFailing(Field(v, "states").value.items, i, WellTypedState)
                  && r == ValidateState(Field(v, "states").value.items[i])
    ensures IsObject(v) && StatesPass(v) ==> r == CheckFromTransitions(v)
  {
    if !IsObject(v) then Fail(NotAnObject)
    else if !HasArray(v, "states") then Fail(NoStatesArray)
    else
      var states := Field(v, "states").value.items;
      match CheckEach(states, ValidateState)
      case Fail(e) => Fail(e)
      case Pass => CheckFromTransitions(v)
  }

  /** The error of every later test, stated on the whole value: each is
      reported exactly when every earlier test passed and it fails. */
  lemma SchemaErrorOrder(v: Json)
    ensures ValidateSchema(v) == Fail(NoTransitionsArray) <==>
      IsObject(v) && StatesPass(v) && !HasArray(v, "transitions")
    ensures ValidateSchema(v).Fail? && ValidateSchema(v).error.BadTransition? <==>
      IsObject(v) && StatesPass(v) && HasArray(v, "transitions") && !TransitionsPass(v)
    ensures ValidateSchema(v) == Fail(NoAlphabetArray) <==>
      IsObject(v) && StatesPass(v) && TransitionsPass(v) && !HasArray(v, "alphabet")
    ensures ValidateSchema(v) == Fail(AlphabetEmpty) <==>
      IsObject(v) && StatesPass(v) && TransitionsPass(v) && HasArray(v, "alphabet")
      && |Field(v, "alphabet").value.items| == 0
    ensures ValidateSchema(v) == Fail(NonStringSymbol) <==>
      IsObject(v) && StatesPass(v) && TransitionsPass(v) && HasArray(v, "alphabet")
      && |Field(v, "alphabet").value.items| > 0 && !WellTypedAlphabet(v)
    ensures ValidateSchema(v) == Fail(NoMetadataObject) <==> PassesUpToMetadata(v) && !HasObject(v, "metadata")
    ensures PassesUpToMetadata(v) && HasObject(v, "metadata") ==>
      ValidateSchema(v) == CheckMetadata(Field(v, "metadata").value)
  {
    if IsObject(v) && StatesPass(v) {
      assert ValidateSchema(v) == CheckFromTransitions(v);
      if TransitionsPass(v) {
        assert ValidateSchema(v) == CheckAlphabetAndMetadata(v);
      }
    }
  }

  // ----- Conversions -----

  function DecodeState(v: Json): State
    requires WellTypedState(v)
  {
    var pos := Field(v, "position").value;
    State(Field(v, "id").value.s, Field(v, "label").value.s, KindOf(Field(v, "type").value.s).value,
          Position(Finite(Field(pos, "x").value.n), Finite(Field(pos, "y").value.n)))
  }

  function DecodeTransition(v: Json): Transition
    requires WellTypedTransition(v)
  {
    Transition(Field(v, "id").value.s, Field(v, "from").value.s, Field(v, "to").value.s, Field(v, "symbol").value.s)
  }

  /** The definition a schema-valid value stands for (the `as DFADefinition`
      cast, reading only the modelled fields). */
  function Decode(v: Json): Definition
    requires WellTypedDefinition(v)
  {
    var states := Field(v, "states").value.items;
    var transitions := Field(v, "transitions").value.items;
    var alphabet := Field(v, "alphabet").value.items;
    var m := Field(v, "metadata").value;
    Definition(
      seq(|states|, i requires 0 <= i < |states| => DecodeState(states[i])),
      seq(|transitions|, i requires 0 <= i < |transitions| => DecodeTransition(transitions[i])),
      seq(|alphabet|, i requires 0 <= i < |alphabet| => alphabet[i].s),
      Metadata(Field(m, "name").value.s, Field(m, "description").value.s,
               Field(m, "createdAt").value.s, Field(m, "modifiedAt").value.s))
  }

  /** `fromJSON`: a text that does not parse is an invalid format; a parsed
      value that fails the schema is refused with the schema's own error;
      otherwise the parsed value is the definition. */
  function FromJson(p: ParseOutcome): (r: Result<Definition, LoadError>)
    ensures p.SyntaxError? ==> r == Err(InvalidJsonFormat)
    ensures p.Parsed? ==> (r.Ok? <==> WellTypedDefinition(p.value))
    ensures p.Parsed? && r.Err? ==> r == Err(Invalid(ValidateSchema(p.value).error))
    ensures r.Ok? ==> WellTypedDefinition(p.value) && r.value == Decode(p.value)
  {
    match p
    case SyntaxError => Err(InvalidJsonFormat)
    case Parsed(v) =>
      match ValidateSchema(v)
      case Fail(e) => Err(Invalid(e))
      case Pass => Ok(Decode(v))
  }

  /** `JSON.stringify` writes NaN and the infinities as `null`. */
  function EncodeCoord(c: Coord): Json {
    match c
    case Finite(x) => JNumber(x)
    case NaN => JNull
    case Infinity(_) => JNull
  }

  function EncodeState(s: State): Json {
    JObject(map[
      "id" := JString(s.id),
      "label" := JString(s.labelText),
      "type" := JString(KindName(s.kind)),
      "position" := JObject(map["x" := EncodeCoord(s.position.x), "y" := EncodeCoord(s.position.y)])])
  }

  function EncodeTransition(t: Transition): Json {
    JObject(map["id" := JString(t.id), "from" := JString(t.from), "to" := JString(t.to), "symbol" := JString(t.symbol)])
  }

  function EncodeStates(states: seq<State>): (r: seq<Json>)
    ensures |r| == |states| && forall i :: 0 <= i < |r| ==> r[i] == EncodeState(states[i])
  {
    seq(|states|, i requires 0 <= i < |states| => EncodeState(states[i]))
  }

  function EncodeTransitions(transitions: seq<Transition>): (r: seq<Json>)
    ensures |r| == |transitions| && forall i :: 0 <= i < |r| ==> r[i] == EncodeTransition(transitions[i])
  {
    seq(|transitions|, i requires 0 <= i < |transitions| => EncodeTransition(transitions[i]))
  }

  function EncodeAlphabet(alphabet: seq<string>): (r: seq<Json>)
    ensures |r| == |alphabet| && forall i :: 0 <= i < |r| ==> r[i] == JString(alphabet[i])
  {
    seq(|alphabet|, i requires 0 <= i < |alphabet| => JString(alphabet[i]))
  }

  function EncodeMetadata(m: Metadata): Json {
    JObject(map[
      "name" := JString(m.name),
      "description" := JString(m.description),
      "createdAt" := JString(m.createdAt),
      "modifiedAt" := JString(m.modifiedAt)])
  }

  /** The four members of an exported value. */
  predicate EncodesAs(v: Json, d: Definition) {
    && v.JObject?
    && Field(v, "states") == Some(JArray(EncodeStates(d.states)))
    && Field(v, "transitions") == Some(JArray(EncodeTransitions(d.transitions)))
    && Field(v, "alphabet") == Some(JArray(EncodeAlphabet(d.alphabet)))
    && Field(v, "metadata") == Some(EncodeMetadata(d.metadata))
  }

  /** The JSON value `toJSON` serialises: the states, transitions and
      alphabet entry by entry, and the four metadata strings. */
  function Encode(d: Definition): (r: Json)
    ensures EncodesAs(r, d)
  {
    JObject(map[
      "states" := JArray(EncodeStates(d.states)),
      "transitions" := JArray(EncodeTransitions(d.transitions)),
      "alphabet" := JArray(EncodeAlphabet(d.alphabet)),
      "metadata" := EncodeMetadata(d.metadata)])
  }

  // ----- Round trip -----

  predicate FinitePosition(p: Position) {
    p.x.Finite? && p.y.Finite?
  }

  /** Every state sits at finite coordinates. */
  predicate FiniteLayout(d: Definition) {
    forall i :: 0 <= i < |d.states| ==> FinitePosition(d.states[i].position)
  }

  lemma EncodeStateWellTyped(s: State)
    ensures WellTypedState(EncodeState(s)) <==> FinitePosition(s.position)
    ensures FinitePosition(s.position) ==> DecodeState(EncodeState(s)) == s
  {
    var v := EncodeState(s);
    var pos := Field(v, "position").value;
    assert Field(v, "type").value.s == KindName(s.kind);
    assert Field(pos, "x").value == EncodeCoord(s.position.x);
    assert Field(pos, "y").value == EncodeCoord(s.position.y);
  }

  lemma EncodeTransitionWellTyped(t: Transition)
    ensures WellTypedTransition(EncodeTransition(t))
    ensures DecodeTransition(EncodeTransition(t)) == t
  {
  }

  lemma MetadataWellTyped(m: Metadata)
    ensures HasString(EncodeMetadata(m), "name") && HasString(EncodeMetadata(m), "description")
    ensures HasString(EncodeMetadata(m), "createdAt") && HasString(EncodeMetadata(m), "modifiedAt")
    ensures Field(EncodeMetadata(m), "name").value.s == m.name
    ensures Field(EncodeMetadata(m), "description").value.s == m.description
    ensures Field(EncodeMetadata(m), "createdAt").value.s == m.createdAt
    ensures Field(EncodeMetadata(m), "modifiedAt").value.s == m.modifiedAt
  {
  }

  /** The schema verdict on any value with the members of an export. */
  lemma SchemaOfEncoding(v: Json, d: Definition)
    requires EncodesAs(v, d)
    ensures WellTypedDefinition(v) <==> |d.alphabet| > 0 && FiniteLayout(d)
  {
    var states := EncodeStates(d.states);
    forall i | 0 <= i < |states|
      ensures WellTypedState(states[i]) <==> FinitePosition(d.states[i].position)
    {
      EncodeStateWellTyped(d.states[i]);
    }
    var transitions := EncodeTransitions(d.transitions);
    forall i | 0 <= i < |transitions|
      ensures WellTypedTransition(transitions[i])
    {
      EncodeTransitionWellTyped(d.transitions[i]);
    }
    MetadataWellTyped(d.metadata);
    assert WellTypedMetadata(v);
    if |d.alphabet| > 0 && FiniteLayout(d) {
      assert WellTypedAlphabet(v);
    } else if |d.alphabet| == 0 {
      assert !WellTypedAlphabet(v);
    } else {
      var i :| 0 <= i < |d.states| && !FinitePosition(d.states[i].position);
      assert !WellTypedState(states[i]);
    }
  }

  /** An exported automaton passes the import schema exactly when its
      alphabet is not empty and every state sits at finite coordinates: the
      schema asks nothing else of the alphabet's symbols. */
  lemma ExportPassesSchema(d: Definition)
    ensures ValidateSchema(Encode(d)).Pass? <==> |d.alphabet| > 0 && FiniteLayout(d)
  {
    SchemaOfEncoding(Encode(d), d);
  }

  /** Reading back any schema-valid value with the members of an export
      gives the automaton. */
  lemma DecodeOfEncoding(v: Json, d: Definition)
    requires EncodesAs(v, d) && WellTypedDefinition(v)
    ensures Decode(v) == d
  {
    var states := EncodeStates(d.states);
    forall i | 0 <= i < |states|
      ensures DecodeState(states[i]) == d.states[i]
    {
      EncodeStateWellTyped(d.states[i]);
    }
    var transitions := EncodeTransitions(d.transitions);
    forall i | 0 <= i < |transitions|
      ensures DecodeTransition(transitions[i]) == d.transitions[i]
    {
      EncodeTransitionWellTyped(d.transitions[i]);
    }
    MetadataWellTyped(d.metadata);
    var r := Decode(v);
    assert r.states == d.states;
    assert r.transitions == d.transitions;
    assert r.alphabet == d.alphabet;
  }

  /** Export then import gives back the automaton, for every automaton the
      schema lets back in. */
  lemma ImportOfExport(d: Definition)
    requires |d.alphabet| > 0 && FiniteLayout(d)
    ensures FromJson(Parsed(Encode(d))) == Ok(d)
  {
    SchemaOfEncoding(Encode(d), d);
    DecodeOfEncoding(Encode(d), d);
  }
}
