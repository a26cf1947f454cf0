/** The structural validator (`DFAValidator`): six independent passes over
    a definition, each producing errors or warnings, and the breadth-first
    reachability closure used by one of them. */
module DfaValidator {
  import opened Wrappers
  import opened Collections
  import opened DfaTypes
  import opened Dfa

  function NonDetIssue(stateId: string, symbol: string): Issue {
    Issue(NonDeterministic, Some(stateId), None, Some(symbol))
  }

  function IncompleteIssue(stateId: string, symbol: string): Issue {
    Issue(IncompleteTransitions, Some(stateId), None, Some(symbol))
  }

  function UnreachableIssue(stateId: string): Issue {
    Issue(UnreachableState, Some(stateId), None, None)
  }

  function InvalidSymbolIssue(t: Transition): Issue {
    Issue(InvalidSymbol, None, Some(t.id), Some(t.symbol))
  }

  /** The state ids, in order (with repetitions). */
  function StateIds(states: seq<State>): (r: seq<string>)
    ensures |r| == |states|
    ensures forall i :: 0 <= i < |states| ==> r[i] == states[i].id
  {
    if |states| == 0 then [] else [states[0].id] + StateIds(states[1..])
  }

  lemma UniqueIdOccursOnce(states: seq<State>, id: string)
    requires UniqueStateIds(states) && HasState(states, id)
    ensures multiset(StateIds(states))[id] == 1
  {
    var ids := StateIds(states);
    var k :| 0 <= k < |states| && states[k].id == id;
    assert ids[k] == id;
    DistinctOccursOnce(ids, id);
  }

  // ========== Pass 1: initial-state cardinality ==========

  /** No initial-bearing state gives one NO_INITIAL_STATE error, more than
      one gives one MULTIPLE_INITIAL_STATES error, exactly one gives none. */
  function InitialStateErrors(states: seq<State>): (r: seq<Issue>)
    ensures (forall i :: 0 <= i < |states| ==> !IsInitialState(states[i]))
        <==> r == [Issue(NoInitialState, None, None, None)]
    ensures Count(states, IsInitialState) > 1
        <==> r == [Issue(MultipleInitialStates, None, None, None)]
    ensures Count(states, IsInitialState) == 1 <==> r == []
  {
    CountZero(states, IsInitialState);
    var n := Count(states, IsInitialState);
    if n == 0 then [Issue(NoInitialState, None, None, None)]
    else if n > 1 then [Issue(MultipleInitialStates, None, None, None)]
    else []
  }

  // ========== Pass 2: accepting-state presence ==========

  /** One NO_ACCEPTING_STATE warning exactly when no state is accepting or
      initial-accepting. */
  function AcceptingStateWarnings(states: seq<State>): (r: seq<Issue>)
    ensures r == [] <==> exists i :: 0 <= i < |states| && IsAcceptingState(states[i])
    ensures r != [] ==> r == [Issue(NoAcceptingState, None, None, None)]
  {
    CountZero(states, IsAcceptingState);
    if Count(states, IsAcceptingState) == 0 then [Issue(NoAcceptingState, None, None, None)] else []
  }

  // ========== Pass 3: determinism ==========

  /** Number of transitions leaving `id` on `symbol`. */
  function CountOut(transitions: seq<Transition>, id: string, symbol: string): nat
    decreases |transitions|
  {
    if |transitions| == 0 then 0
    else (if Leaves(transitions[0], id, symbol) then 1 else 0) + CountOut(transitions[1..], id, symbol)
  }

  lemma {:induction false} CountOutPositive(transitions: seq<Transition>, id: string, symbol: string)
    ensures CountOut(transitions, id, symbol) > 0
        <==> exists i :: 0 <= i < |transitions| && Leaves(transitions[i], id, symbol)
    decreases |transitions|
  {
    if |transitions| > 0 {
      CountOutPositive(transitions[1..], id, symbol);
      if exists i :: 0 <= i < |transitions| && Leaves(transitions[i], id, symbol) {
        var i :| 0 <= i < |transitions| && Leaves(transitions[i], id, symbol);
        if i > 0 {
          assert Leaves(transitions[1..][i - 1], id, symbol);
        }
      }
    }
  }

  /** The symbols of the transitions leaving `id`, in list order. */
  function OutgoingSymbols(transitions: seq<Transition>, id: string): (r: seq<string>)
    ensures forall symbol :: symbol in r <==> CountOut(transitions, id, symbol) > 0
    decreases |transitions|
  {
    if |transitions| == 0 then []
    else
      var rest := OutgoingSymbols(transitions[1..], id);
      if transitions[0].from == id then [transitions[0].symbol] + rest else rest
  }

  /** One NON_DETERMINISTIC error for each symbol of `symbols` with more
      than one transition leaving `id`. */
  function DuplicateIssues(transitions: seq<Transition>, id: string, symbols: seq<string>): (r: seq<Issue>)
    ensures forall e :: e in r ==> e.symbol.Some? && e == NonDetIssue(id, e.symbol.value)
                                   && CountOut(transitions, id, e.symbol.value) > 1
    decreases |symbols|
  {
    if |symbols| == 0 then []
    else
      (if CountOut(transitions, id, symbols[0]) > 1 then [NonDetIssue(id, symbols[0])] else [])
      + DuplicateIssues(transitions, id, symbols[1..])
  }

  lemma {:induction false} DuplicateIssuesCount(transitions: seq<Transition>, id: string, symbols: seq<string>, symbol: string)
    requires Distinct(symbols)
    ensures multiset(DuplicateIssues(transitions, id, symbols))[NonDetIssue(id, symbol)]
         == if symbol in symbols && CountOut(transitions, id, symbol) > 1 then 1 else 0
    decreases |symbols|
  {
    if |symbols| > 0 {
      var issue := NonDetIssue(id, symbol);
      var head := if CountOut(transitions, id, symbols[0]) > 1 then [NonDetIssue(id, symbols[0])] else [];
      DuplicateIssuesCount(transitions, id, symbols[1..], symbol);
      MultisetConcatAt(head, DuplicateIssues(transitions, id, symbols[1..]), issue);
      assert symbol in symbols <==> symbols[0] == symbol || symbol in symbols[1..];
      if symbols[0] == symbol {
        forall k | 0 <= k < |symbols[1..]|
          ensures symbols[1..][k] != symbol
        {
          assert symbols[1..][k] == symbols[k + 1];
        }
      }
    }
  }

  /** The errors one state contributes: its outgoing transitions grouped by
      symbol in first-occurrence order (the source's `Map`), one error per
      group of size above one. */
  function StateDeterminismErrors(transitions: seq<Transition>, s: State): seq<Issue> {
    DuplicateIssues(transitions, s.id, Dedup(OutgoingSymbols(transitions, s.id)))
  }

  /** Pass 3: the errors of each state entry in turn. Every error names a
      listed state and a symbol on which it has two or more transitions;
      how often each appears is `DeterminismErrorsCount`. */
  function DeterminismErrors(states: seq<State>, transitions: seq<Transition>): (r: seq<Issue>)
    ensures forall e :: e in r ==>
      && e.stateId.Some? && e.symbol.Some?
      && e == NonDetIssue(e.stateId.value, e.symbol.value)
      && HasState(states, e.stateId.value)
      && CountOut(transitions, e.stateId.value, e.symbol.value) > 1
    decreases |states|
  {
    if |states| == 0 then []
    else
      var rest := DeterminismErrors(states[1..], transitions);
      assert forall x :: HasState(states[1..], x) ==> HasState(states, x) by {
        forall x | HasState(states[1..], x) ensures HasState(states, x) {
          var i :| 0 <= i < |states[1..]| && states[1..][i].id == x;
          assert states[i + 1].id == x;
        }
      }
      assert HasState(states, states[0].id);
      StateDeterminismErrors(transitions, states[0]) + rest
  }

  /** Every (state, symbol) pair with more than one outgoing transition
      yields a NON_DETERMINISTIC error carrying the state id and the symbol,
      once per state entry carrying that id; no other error is emitted. */
  lemma {:induction false} DeterminismErrorsCount(states: seq<State>, transitions: seq<Transition>, id: string, symbol: string)
    ensures multiset(DeterminismErrors(states, transitions))[NonDetIssue(id, symbol)]
         == if CountOut(transitions, id, symbol) > 1 then multiset(StateIds(states))[id] else 0
    decreases |states|
  {
    if |states| > 0 {
      var issue := NonDetIssue(id, symbol);
      var block := StateDeterminismErrors(transitions, states[0]);
      DeterminismErrorsCount(states[1..], transitions, id, symbol);
      MultisetConcatAt(block, DeterminismErrors(states[1..], transitions), issue);
      assert StateIds(states)[1..] == StateIds(states[1..]);
      MultisetConsAt(StateIds(states), id);
      if states[0].id == id {
        DuplicateIssuesCount(transitions, id, Dedup(OutgoingSymbols(transitions, id)), symbol);
      } else {
        assert NonDetIssue(id, symbol) !in block;
      }
    }
  }

  lemma {:induction false} DeterminismErrorsShape(states: seq<State>, transitions: seq<Transition>, e: Issue)
    ensures e in DeterminismErrors(states, transitions) <==>
      exists i, symbol :: (0 <= i < |states| && CountOut(transitions, states[i].id, symbol) > 1
        && e == NonDetIssue(states[i].id, symbol))
    decreases |states|
  {
    if |states| > 0 {
      DeterminismErrorsShape(states[1..], transitions, e);
      var block := StateDeterminismErrors(transitions, states[0]);
      if e in block {
        var symbol := e.symbol.value;
        DuplicateIssuesCount(transitions, states[0].id, Dedup(OutgoingSymbols(transitions, states[0].id)), symbol);
        assert e == NonDetIssue(states[0].id, symbol);
      }
      if exists i, symbol :: (0 <= i < |states| && CountOut(transitions, states[i].id, symbol) > 1
        && e == NonDetIssue(states[i].id, symbol))
      {
        var i, symbol :| 0 <= i < |states| && CountOut(transitions, states[i].id, symbol) > 1
          && e == NonDetIssue(states[i].id, symbol);
        if i == 0 {
          DuplicateIssuesCount(transitions, states[0].id, Dedup(OutgoingSymbols(transitions, states[0].id)), symbol);
        } else {
          assert states[1..][i - 1] == states[i];
        }
      }
    }
  }

  /** With unique state ids, each duplicated (state, symbol) pair gives
      exactly one error, not one per state or per duplicate transition. */
  lemma NonDeterministicExactlyOnce(states: seq<State>, transitions: seq<Transition>, id: string, symbol: string)
    requires UniqueStateIds(states) && HasState(states, id)
    ensures multiset(DeterminismErrors(states, transitions))[NonDetIssue(id, symbol)]
         == if CountOut(transitions, id, symbol) > 1 then 1 else 0
  {
    DeterminismErrorsCount(states, transitions, id, symbol);
    UniqueIdOccursOnce(states, id);
  }

  // ========== Pass 4: completeness ==========

  /** One INCOMPLETE_TRANSITIONS warning per alphabet entry missing from
      `present`. */
  function MissingSymbolWarnings(id: string, present: seq<string>, alphabet: seq<string>): (r: seq<Issue>)
    ensures forall e :: e in r ==> e.symbol.Some? && e == IncompleteIssue(id, e.symbol.value)
                                   && e.symbol.value in alphabet && e.symbol.value !in present
    decreases |alphabet|
  {
    if |alphabet| == 0 then []
    else
      (if alphabet[0] !in present then [IncompleteIssue(id, alphabet[0])] else [])
      + MissingSymbolWarnings(id, present, alphabet[1..])
  }

  lemma {:induction false} MissingSymbolWarningsCount(id: string, present: seq<string>, alphabet: seq<string>, symbol: string)
    ensures multiset(MissingSymbolWarnings(id, present, alphabet))[IncompleteIssue(id, symbol)]
         == if symbol !in present then multiset(alphabet)[symbol] else 0
    decreases |alphabet|
  {
    if |alphabet| > 0 {
      var issue := IncompleteIssue(id, symbol);
      var head := if alphabet[0] !in present then [IncompleteIssue(id, alphabet[0])] else [];
      MissingSymbolWarningsCount(id, present, alphabet[1..], symbol);
      MultisetConcatAt(head, MissingSymbolWarnings(id, present, alphabet[1..]), issue);
      MultisetConsAt(alphabet, symbol);
    }
  }

  /** Pass 4: the warnings of each state entry in turn. Every warning
      names a listed state and an alphabet symbol no transition leaves it
      on; how often each appears is `CompletenessWarningsCount`. */
  function CompletenessWarnings(states: seq<State>, transitions: seq<Transition>, alphabet: seq<string>): (r: seq<Issue>)
    ensures forall e :: e in r ==>
      && e.stateId.Some? && e.symbol.Some?
      && e == IncompleteIssue(e.stateId.value, e.symbol.value)
      && HasState(states, e.stateId.value)
      && e.symbol.value in alphabet
      && CountOut(transitions, e.stateId.value, e.symbol.value) == 0
    decreases |states|
  {
    if |states| == 0 then []
    else
      var rest := CompletenessWarnings(states[1..], transitions, alphabet);
      assert forall x :: HasState(states[1..], x) ==> HasState(states, x) by {
        forall x | HasState(states[1..], x) ensures HasState(states, x) {
          var i :| 0 <= i < |states[1..]| && states[1..][i].id == x;
          assert states[i + 1].id == x;
        }
      }
      assert HasState(states, states[0].id);
      MissingSymbolWarnings(states[0].id, OutgoingSymbols(transitions, states[0].id), alphabet) + rest
  }

  /** A warning for (id, symbol) appears once per state entry with that id
      and per alphabet entry with that symbol, when no transition leaves
      the state on the symbol, and never otherwise. */
  lemma {:induction false} CompletenessWarningsCount(states: seq<State>, transitions: seq<Transition>, alphabet: seq<string>, id: string, symbol: string)
    ensures multiset(CompletenessWarnings(states, transitions, alphabet))[IncompleteIssue(id, symbol)]
         == if CountOut(transitions, id, symbol) == 0
            then multiset(StateIds(states))[id] * multiset(alphabet)[symbol]
            else 0
    decreases |states|
  {
    if |states| > 0 {
      var issue := IncompleteIssue(id, symbol);
      var a := multiset(alphabet)[symbol];
      var missing := CountOut(transitions, id, symbol) == 0;
      var block := MissingSymbolWarnings(states[0].id, OutgoingSymbols(transitions, states[0].id), alphabet);
      var tail := CompletenessWarnings(states[1..], transitions, alphabet);
      var ids := StateIds(states[1..]);
      var m := multiset(ids)[id];
      var here := if states[0].id == id then 1 else 0;
      var total := multiset(CompletenessWarnings(states, transitions, alphabet))[issue];
      var n := multiset(StateIds(states))[id];
      assert total == multiset(block)[issue] + multiset(tail)[issue] by {
        MultisetConcatAt(block, tail, issue);
      }
      assert multiset(tail)[issue] == if missing then m * a else 0 by {
        CompletenessWarningsCount(states[1..], transitions, alphabet, id, symbol);
      }
      assert n == here + m by {
        assert StateIds(states)[1..] == ids;
        MultisetConsAt(StateIds(states), id);
      }
      assert multiset(block)[issue] == (if here == 1 && missing then a else 0) by {
        if states[0].id == id {
          MissingSymbolWarningsCount(id, OutgoingSymbols(transitions, id), alphabet, symbol);
        } else {
          assert issue !in block;
        }
      }
      CountStep(total, multiset(block)[issue], multiset(tail)[issue], n, here, m, a, missing);
    }
  }

  /** The arithmetic of one step of `CompletenessWarningsCount`, kept apart
      from the sequences so that the product stays in a small context. */
  lemma CountStep(total: int, head: int, rest: int, n: int, here: int, m: int, a: int, missing: bool)
    requires total == head + rest && n == here + m && (here == 0 || here == 1)
    requires rest == (if missing then m * a else 0)
    requires head == (if here == 1 && missing then a else 0)
    ensures total == if missing then n * a else 0
  {
    if missing && here == 1 {
      assert n * a == a + m * a;
    }
  }

  /** With unique state ids and a duplicate-free alphabet, each missing
      (state, symbol) pair gives exactly one warning. */
  lemma IncompleteExactlyOnce(states: seq<State>, transitions: seq<Transition>, alphabet: seq<string>, id: string, symbol: string)
    requires UniqueStateIds(states) && HasState(states, id)
    requires Distinct(alphabet) && symbol in alphabet
    ensures multiset(CompletenessWarnings(states, transitions, alphabet))[IncompleteIssue(id, symbol)]
         == if CountOut(transitions, id, symbol) == 0 then 1 else 0
  {
    CompletenessWarningsCount(states, transitions, alphabet, id, symbol);
    UniqueIdOccursOnce(states, id);
    DistinctOccursOnce(alphabet, symbol);
  }

  lemma {:induction false} DistinctOccursOnce(s: seq<string>, x: string)
    requires Distinct(s) && x in s
    ensures multiset(s)[x] == 1
    decreases |s|
  {
    assert s == [s[0]] + s[1..];
    if s[0] == x {
      forall k | 0 <= k < |s[1..]|
        ensures s[1..][k] != x
      {
        assert s[1..][k] == s[k + 1];
      }
    } else {
      DistinctOccursOnce(s[1..], x);
    }
  }

  // ========== Pass 5: reachability ==========

  ghost predicate Edge(transitions: seq<Transition>, a: string, b: string) {
    exists i :: 0 <= i < |transitions| && transitions[i].from == a && transitions[i].to == b
  }

  ghost predicate IsPath(transitions: seq<Transition>, p: seq<string>) {
    |p| >= 1 && forall k :: 0 <= k < |p| - 1 ==> Edge(transitions, p[k], p[k + 1])
  }

  /** `x` can be reached from `start` by following `from -> to` edges (zero
      or more of them). */
  ghost predicate Reachable(transitions: seq<Transition>, start: string, x: string) {
    exists p :: IsPath(transitions, p) && p[0] == start && p[|p| - 1] == x
  }

  /** Every id the search can visit: the start and the transition targets. */
  function Candidates(transitions: seq<Transition>, start: string): set<string> {
    {start} + set i | 0 <= i < |transitions| :: transitions[i].to
  }

  /** The targets the inner loop pushes after visiting `current`: those of
      its outgoing transitions not yet reached, in list order. */
  function TargetsToPush(transitions: seq<Transition>, current: string, reached: set<string>): (r: seq<string>)
    ensures forall k :: 0 <= k < |r| ==> r[k] !in reached && Edge(transitions, current, r[k])
    ensures forall i :: (0 <= i < |transitions| && transitions[i].from == current
      && transitions[i].to !in reached) ==> transitions[i].to in r
    decreases |transitions|
  {
    if |transitions| == 0 then []
    else
      var rest := TargetsToPush(transitions[1..], current, reached);
      assert forall k :: 0 <= k < |rest| ==> Edge(transitions, current, rest[k]) by {
        forall k | 0 <= k < |rest|
          ensures Edge(transitions, current, rest[k])
        {
          var i :| 0 <= i < |transitions[1..]| && transitions[1..][i].from == current && transitions[1..][i].to == rest[k];
          assert transitions[i + 1] == transitions[1..][i];
        }
      }
      assert forall i :: 1 <= i < |transitions| ==> transitions[i] == transitions[1..][i - 1];
      var t := transitions[0];
      if t.from == current && t.to !in reached then [t.to] + rest else rest
  }

  lemma TargetsAreCandidates(transitions: seq<Transition>, start: string, current: string, reached: set<string>)
    ensures forall k :: 0 <= k < |TargetsToPush(transitions, current, reached)| ==>
      TargetsToPush(transitions, current, reached)[k] in Candidates(transitions, start)
  {
    var r := TargetsToPush(transitions, current, reached);
    forall k | 0 <= k < |r|
      ensures r[k] in Candidates(transitions, start)
    {
      assert Edge(transitions, current, r[k]);
    }
  }

  /** The loop of `findReachableStates`: take the queue head; skip it if
      already reached, otherwise mark it and push its unreached targets.
      Terminates because every visited id is a candidate. */
  function Bfs(transitions: seq<Transition>, start: string, queue: seq<string>, reached: set<string>): set<string>
    requires reached <= Candidates(transitions, start)
    requires forall k :: 0 <= k < |queue| ==> queue[k] in Candidates(transitions, start)
    decreases |Candidates(transitions, start) - reached|, |queue|
  {
    if |queue| == 0 then reached
    else
      var current := queue[0];
      if current in reached then Bfs(transitions, start, queue[1..], reached)
      else
        var cands := Candidates(transitions, start);
        var reached' := reached + {current};
        assert (cands - reached') + {current} == cands - reached;
        var pushed := TargetsToPush(transitions, current, reached');
        TargetsAreCandidates(transitions, start, current, reached');
        Bfs(transitions, start, queue[1..] + pushed, reached')
  }

  lemma ReachableStep(transitions: seq<Transition>, start: string, a: string, b: string)
    requires Reachable(transitions, start, a) && Edge(transitions, a, b)
    ensures Reachable(transitions, start, b)
  {
    var p :| IsPath(transitions, p) && p[0] == start && p[|p| - 1] == a;
    var q := p + [b];
    assert forall k :: 0 <= k < |p| ==> q[k] == p[k];
    assert IsPath(transitions, q);
  }

  ghost predicate Closed(transitions: seq<Transition>, s: set<string>, pending: seq<string>) {
    forall x, i :: x in s && 0 <= i < |transitions| && transitions[i].from == x ==>
      transitions[i].to in s || transitions[i].to in pending
  }

  /** The search returns a set of reachable ids that contains the start and
      is closed under edges. */
  lemma {:induction false} BfsInvariant(transitions: seq<Transition>, start: string, queue: seq<string>, reached: set<string>)
    requires reached <= Candidates(transitions, start)
    requires forall k :: 0 <= k < |queue| ==> queue[k] in Candidates(transitions, start)
    requires forall x :: x in reached ==> Reachable(transitions, start, x)
    requires forall k :: 0 <= k < |queue| ==> Reachable(transitions, start, queue[k])
    requires Closed(transitions, reached, queue)
    requires start in reached || start in queue
    ensures var r := Bfs(transitions, start, queue, reached);
      && (forall x :: x in r ==> Reachable(transitions, start, x))
      && start in r
      && Closed(transitions, r, [])
    decreases |Candidates(transitions, start) - reached|, |queue|
  {
    if |queue| > 0 {
      var current := queue[0];
      if current in reached {
        SkipKeepsClosed(transitions, queue, reached);
        if start !in reached {
          StillQueued(queue, start);
        }
        BfsInvariant(transitions, start, queue[1..], reached);
      } else {
        var cands := Candidates(transitions, start);
        var reached' := reached + {current};
        assert (cands - reached') + {current} == cands - reached;
        var pushed := TargetsToPush(transitions, current, reached');
        TargetsAreCandidates(transitions, start, current, reached');
        var queue' := queue[1..] + pushed;
        VisitKeepsReachable(transitions, start, queue, pushed, queue');
        VisitKeepsClosed(transitions, queue, reached);
        if start !in reached' {
          StillQueued(queue, start);
        }
        assert reached' <= cands;
        assert forall k :: 0 <= k < |queue'| ==> queue'[k] in cands by {
          forall k | 0 <= k < |queue'|
            ensures queue'[k] in cands
          {
            if k < |queue| - 1 {
              assert queue'[k] == queue[k + 1];
            } else {
              assert queue'[k] == pushed[k - (|queue| - 1)];
            }
          }
        }
        assert forall x :: x in reached' ==> Reachable(transitions, start, x);
        assert forall k :: 0 <= k < |queue'| ==> Reachable(transitions, start, queue'[k]);
        assert Closed(transitions, reached', queue');
        assert |cands - reached'| < |cands - reached|;
        BfsInvariant(transitions, start, queue', reached');
      }
    }
  }

  lemma StillQueued(queue: seq<string>, x: string)
    requires |queue| > 0 && x in queue && x != queue[0]
    ensures x in queue[1..]
  {
    var k :| 0 <= k < |queue| && queue[k] == x;
    assert queue[1..][k - 1] == x;
  }

  lemma SkipKeepsClosed(transitions: seq<Transition>, queue: seq<string>, reached: set<string>)
    requires |queue| > 0 && queue[0] in reached
    requires Closed(transitions, reached, queue)
    ensures Closed(transitions, reached, queue[1..])
  {
    forall x, i | x in reached && 0 <= i < |transitions| && transitions[i].from == x
      ensures transitions[i].to in reached || transitions[i].to in queue[1..]
    {
      var y := transitions[i].to;
      if y !in reached {
        StillQueued(queue, y);
      }
    }
  }

  lemma VisitKeepsReachable(transitions: seq<Transition>, start: string, queue: seq<string>,
                            pushed: seq<string>, queue': seq<string>)
    requires |queue| > 0 && queue' == queue[1..] + pushed
    requires forall k :: 0 <= k < |pushed| ==> Edge(transitions, queue[0], pushed[k])
    requires forall k :: 0 <= k < |queue| ==> Reachable(transitions, start, queue[k])
    ensures forall k :: 0 <= k < |queue'| ==> Reachable(transitions, start, queue'[k])
  {
    forall k | 0 <= k < |queue'|
      ensures Reachable(transitions, start, queue'[k])
    {
      if k < |queue| - 1 {
        assert queue'[k] == queue[k + 1];
      } else {
        assert queue'[k] == pushed[k - (|queue| - 1)];
        ReachableStep(transitions, start, queue[0], queue'[k]);
      }
    }
  }

  lemma VisitKeepsClosed(transitions: seq<Transition>, queue: seq<string>, reached: set<string>)
    requires |queue| > 0 && queue[0] !in reached
    requires Closed(transitions, reached, queue)
    ensures Closed(transitions, reached + {queue[0]},
                   queue[1..] + TargetsToPush(transitions, queue[0], reached + {queue[0]}))
  {
    var current := queue[0];
    var reached' := reached + {current};
    var pushed := TargetsToPush(transitions, current, reached');
    var queue' := queue[1..] + pushed;
    forall x, i | x in reached' && 0 <= i < |transitions| && transitions[i].from == x
      ensures transitions[i].to in reached' || transitions[i].to in queue'
    {
      var y := transitions[i].to;
      if x == current {
        if y !in reached' {
          assert y in pushed;
        }
      } else if y !in reached' {
        StillQueued(queue, y);
      }
    }
  }

  /** A closed set containing the start contains everything reachable. */
  lemma ClosedContainsReachable(transitions: seq<Transition>, start: string, s: set<string>, x: string)
    requires start in s && Closed(transitions, s, [])
    requires Reachable(transitions, start, x)
    ensures x in s
  {
    var p :| IsPath(transitions, p) && p[0] == start && p[|p| - 1] == x;
    var k := 0;
    while k < |p| - 1
      invariant 0 <= k < |p|
      invariant p[k] in s
    {
      assert Edge(transitions, p[k], p[k + 1]);
      k := k + 1;
    }
  }

  /** `findReachableStates`: exactly the ids reachable from `start`, start
      included. */
  function FindReachableStates(transitions: seq<Transition>, start: string): (r: set<string>)
    ensures forall x :: x in r <==> Reachable(transitions, start, x)
  {
    assert IsPath(transitions, [start]);
    var r := Bfs(transitions, start, [start], {});
    BfsInvariant(transitions, start, [start], {});
    assert forall x :: Reachable(transitions, start, x) ==> x in r by {
      forall x | Reachable(transitions, start, x)
        ensures x in r
      {
        ClosedContainsReachable(transitions, start, r, x);
      }
    }
    r
  }

  /** Selects the states whose id was not reached. */
  function Unreached(reached: set<string>): State -> bool {
    (s: State) => s.id !in reached
  }

  /** One UNREACHABLE_STATE warning per state entry whose id was not
      reached, and nothing else. */
  function UnreachableWarnings(states: seq<State>, reached: set<string>): (r: seq<Issue>)
    ensures |r| == Count(states, Unreached(reached))
    ensures forall e :: e in r <==>
      exists i :: 0 <= i < |states| && states[i].id !in reached && e == UnreachableIssue(states[i].id)
    decreases |states|
  {
    if |states| == 0 then []
    else
      var rest := UnreachableWarnings(states[1..], reached);
      assert forall i :: 1 <= i < |states| ==> states[i] == states[1..][i - 1];
      CountCons(states, Unreached(reached));
      (if states[0].id !in reached then [UnreachableIssue(states[0].id)] else []) + rest
  }

  /** No initial state: no warning. Otherwise one UNREACHABLE_STATE warning
      for each state whose id cannot be reached from the first
      initial-bearing state. */
  function ReachabilityWarnings(d: Definition): (r: seq<Issue>)
    ensures GetInitialState(d.states).None? ==> r == []
    ensures GetInitialState(d.states).Some? ==>
      |r| == Count(d.states, Unreached(FindReachableStates(d.transitions, GetInitialState(d.states).value.id)))
    ensures GetInitialState(d.states).Some? ==>
      forall e :: e in r <==> exists i :: (0 <= i < |d.states|
        && !Reachable(d.transitions, GetInitialState(d.states).value.id, d.states[i].id)
        && e == UnreachableIssue(d.states[i].id))
  {
    match GetInitialState(d.states)
    case None => []
    case Some(init) => UnreachableWarnings(d.states, FindReachableStates(d.transitions, init.id))
  }

  /** Each state entry whose id was not reached gets its own warning: a
      warning for `id` occurs as often as `id` occurs among the state ids,
      repeated ids included, and never for a reached id. */
  lemma {:induction false} UnreachableWarningsCount(states: seq<State>, reached: set<string>, id: string)
    ensures multiset(UnreachableWarnings(states, reached))[UnreachableIssue(id)]
         == if id !in reached then multiset(StateIds(states))[id] else 0
    decreases |states|
  {
    if |states| > 0 {
      var head := if states[0].id !in reached then [UnreachableIssue(states[0].id)] else [];
      UnreachableWarningsCount(states[1..], reached, id);
      MultisetConcatAt(head, UnreachableWarnings(states[1..], reached), UnreachableIssue(id));
      assert StateIds(states)[1..] == StateIds(states[1..]);
      MultisetConsAt(StateIds(states), id);
    }
  }

  /** The same multiplicity for the reachability pass: with an initial
      state, a warning for `id` occurs once per state entry carrying `id`
      when `id` is unreachable from the first initial-bearing state. */
  lemma ReachabilityWarningsCount(d: Definition, id: string)
    ensures GetInitialState(d.states).None? ==> multiset(ReachabilityWarnings(d))[UnreachableIssue(id)] == 0
    ensures GetInitialState(d.states).Some? ==>
      multiset(ReachabilityWarnings(d))[UnreachableIssue(id)]
        == if !Reachable(d.transitions, GetInitialState(d.states).value.id, id)
           then multiset(StateIds(d.states))[id] else 0
  {
    if GetInitialState(d.states).Some? {
      var start := GetInitialState(d.states).value.id;
      UnreachableWarningsCount(d.states, FindReachableStates(d.transitions, start), id);
    }
  }

  // ========== Pass 6: transition symbols ==========

  /** Selects the transitions whose symbol is not in the alphabet. */
  function BadSymbol(alphabet: seq<string>): Transition -> bool {
    (t: Transition) => t.symbol !in alphabet
  }

  /** Selects the transitions whose INVALID_SYMBOL error would be `e`. */
  function RaisesSymbolError(alphabet: seq<string>, e: Issue): Transition -> bool {
    (t: Transition) => t.symbol !in alphabet && InvalidSymbolIssue(t) == e
  }

  /** One INVALID_SYMBOL error, carrying the transition id, per transition
      whose symbol is not in the alphabet. */
  function SymbolErrors(transitions: seq<Transition>, alphabet: seq<string>): (r: seq<Issue>)
    ensures |r| == Count(transitions, BadSymbol(alphabet)) <= |transitions|
    ensures forall e :: e in r <==> exists i :: (0 <= i < |transitions|
      && transitions[i].symbol !in alphabet && e == InvalidSymbolIssue(transitions[i]))
    decreases |transitions|
  {
    if |transitions| == 0 then []
    else
      var rest := SymbolErrors(transitions[1..], alphabet);
      assert forall i :: 1 <= i < |transitions| ==> transitions[i] == transitions[1..][i - 1];
      CountCons(transitions, BadSymbol(alphabet));
      var t := transitions[0];
      (if t.symbol !in alphabet then [InvalidSymbolIssue(t)] else []) + rest
  }

  /** Each transition with a foreign symbol gets its own error: an error
      occurs as often as there are transitions that raise exactly it, so
      transitions sharing an id and symbol each contribute one. */
  lemma {:induction false} SymbolErrorsCount(transitions: seq<Transition>, alphabet: seq<string>, e: Issue)
    ensures multiset(SymbolErrors(transitions, alphabet))[e] == Count(transitions, RaisesSymbolError(alphabet, e))
    decreases |transitions|
  {
    if |transitions| > 0 {
      var t := transitions[0];
      var head := if t.symbol !in alphabet then [InvalidSymbolIssue(t)] else [];
      SymbolErrorsCount(transitions[1..], alphabet, e);
      MultisetConcatAt(head, SymbolErrors(transitions[1..], alphabet), e);
      CountCons(transitions, RaisesSymbolError(alphabet, e));
    }
  }

  // ========== validate ==========

  /** At most one transition per (state, symbol) pair. */
  ghost predicate Deterministic(d: Definition) {
    forall i, symbol :: 0 <= i < |d.states| ==> CountOut(d.transitions, d.states[i].id, symbol) <= 1
  }

  /** `validate`: errors from passes 1, 3 and 6 and warnings from passes 2,
      4 and 5, each list in pass order; the result is valid exactly when
      there are no errors. What validity means is `ValidIff`. */
  function Validate(d: Definition): (r: ValidationResult)
    ensures r.isValid <==> r.errors == []
    ensures r.errors == InitialStateErrors(d.states)
                        + DeterminismErrors(d.states, d.transitions)
                        + SymbolErrors(d.transitions, d.alphabet)
    ensures r.warnings == AcceptingStateWarnings(d.states)
                          + CompletenessWarnings(d.states, d.transitions, d.alphabet)
                          + ReachabilityWarnings(d)
  {
    var errors := InitialStateErrors(d.states)
                  + DeterminismErrors(d.states, d.transitions)
                  + SymbolErrors(d.transitions, d.alphabet);
    var warnings := AcceptingStateWarnings(d.states)
                    + CompletenessWarnings(d.states, d.transitions, d.alphabet)
                    + ReachabilityWarnings(d);
    ValidationResult(|errors| == 0, errors, warnings)
  }

  /** An automaton is valid exactly when it has one initial-bearing state,
      no (state, symbol) pair has two transitions, and every transition
      symbol is in the alphabet. Warnings play no part. */
  lemma ValidIff(d: Definition)
    ensures Validate(d).isValid <==>
      && Count(d.states, IsInitialState) == 1
      && Deterministic(d)
      && forall i :: 0 <= i < |d.transitions| ==> d.transitions[i].symbol in d.alphabet
  {
    var r := Validate(d);
    DeterminismErrorsEmpty(d);
    SymbolErrorsEmpty(d.transitions, d.alphabet);
    assert r.errors == [] <==>
      && InitialStateErrors(d.states) == []
      && DeterminismErrors(d.states, d.transitions) == []
      && SymbolErrors(d.transitions, d.alphabet) == [];
  }

  lemma SymbolErrorsEmpty(transitions: seq<Transition>, alphabet: seq<string>)
    ensures SymbolErrors(transitions, alphabet) == []
        <==> forall i :: 0 <= i < |transitions| ==> transitions[i].symbol in alphabet
  {
    var errs := SymbolErrors(transitions, alphabet);
    if errs != [] {
      assert errs[0] in errs;
    }
    if exists i :: 0 <= i < |transitions| && transitions[i].symbol !in alphabet {
      var i :| 0 <= i < |transitions| && transitions[i].symbol !in alphabet;
      assert InvalidSymbolIssue(transitions[i]) in errs;
    }
  }

  lemma DeterminismErrorsEmpty(d: Definition)
    ensures DeterminismErrors(d.states, d.transitions) == [] <==> Deterministic(d)
  {
    var errs := DeterminismErrors(d.states, d.transitions);
    if errs != [] {
      DeterminismErrorsShape(d.states, d.transitions, errs[0]);
    }
    if !Deterministic(d) {
      var i, symbol :| 0 <= i < |d.states| && CountOut(d.transitions, d.states[i].id, symbol) > 1;
      DeterminismErrorsShape(d.states, d.transitions, NonDetIssue(d.states[i].id, symbol));
    }
  }
}
