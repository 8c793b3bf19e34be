/**
 The acceptance engine (acceptsWord): subset simulation of the automaton over
 an input word. `Reachable` is the set of states reachable from the start
 state along a prefix; `AcceptsWord` is the loop of the source, proved to
 compute `Accepts`; `IsRun` gives an independent, path-based reading of
 acceptance.
 */
module Acceptance {
  import opened Automata

  /** One simulation step: the union of the destinations of every current
      state under `symbol`. */
  function Step(t: Table, current: set<int>, symbol: char): set<int>
  {
    set s, d | s in current && d in Destinations(t, s, symbol) :: d
  }

  /** The states reachable from the start state after reading `w`. */
  function Reachable(a: Automaton, w: string): set<int>
    decreases |w|
  {
    if w == [] then {a.startState}
    else Step(a.transitions, Reachable(a, w[..|w| - 1]), w[|w| - 1])
  }

  /** A word is accepted when the states reached after it meet the final states. */
  predicate Accepts(a: Automaton, w: string)
  {
    Reachable(a, w) * a.finalStates != {}
  }

  /** `run` is a sequence of states that starts in the start state and takes,
      for each character of `w`, a recorded transition. */
  predicate IsRun(a: Automaton, w: string, run: seq<int>)
  {
    && |run| == |w| + 1
    && run[0] == a.startState
    && forall i :: 0 <= i < |w| ==> run[i + 1] in Destinations(a.transitions, run[i], w[i])
  }

  /** Lines 77-83 of acceptsWord: build the next state set by inserting the
      destination list of every current state; an absent state or symbol
      contributes nothing. */
  method NextStates(t: Table, current: set<int>, symbol: char) returns (next: set<int>)
    ensures next == Step(t, current, symbol)
  {
    next := {};
    var pending := current;
    while pending != {}
      invariant pending <= current
      invariant next == Step(t, current - pending, symbol)
      decreases pending
    {
      HasMember(pending);
      var state :| state in pending;
      StepAddState(t, current - pending, state, symbol);
      assert current - (pending - {state}) == (current - pending) + {state};
      if state in t && symbol in t[state] {
        next := next + Elements(t[state][symbol]);
      }
      pending := pending - {state};
    }
  }

  /** acceptsWord: the subset simulation, with the early rejection as soon as
      the active set becomes empty, and the final scan of the active set for
      a final state. */
  method AcceptsWord(a: Automaton, word: string) returns (accepted: bool)
    ensures accepted == Accepts(a, word)
  {
    var current := {a.startState};
    for i := 0 to |word|
      invariant current == Reachable(a, word[..i])
    {
      var next := NextStates(a.transitions, current, word[i]);
      assert word[..i + 1][..i] == word[..i];
      if next == {} {
        DeadPrefixRejects(a, word[..i + 1], word[i + 1..]);
        assert word[..i + 1] + word[i + 1..] == word;
        return false;
      }
      current := next;
    }
    assert word[..|word|] == word;
    var unchecked := current;
    while unchecked != {}
      invariant unchecked <= current
      invariant (current - unchecked) * a.finalStates == {}
      decreases unchecked
    {
      HasMember(unchecked);
      var s :| s in unchecked;
      if s in a.finalStates {
        assert s in current * a.finalStates;
        return true;
      }
      unchecked := unchecked - {s};
    }
    assert current * a.finalStates == (current - unchecked) * a.finalStates;
    return false;
  }

  /** A non-empty set has a member to pick. */
  lemma HasMember(s: set<int>)
    requires s != {}
    ensures exists x :: x in s
  {
    if forall x :: x !in s {
      assert false;
    }
  }

  /** Adding one state to the current set adds exactly its destinations. */
  lemma StepAddState(t: Table, done: set<int>, s: int, symbol: char)
    ensures Step(t, done + {s}, symbol) == Step(t, done, symbol) + Elements(Destinations(t, s, symbol))
  {
    var dests := Destinations(t, s, symbol);
    forall d | d in Step(t, done + {s}, symbol)
      ensures d in Step(t, done, symbol) + Elements(dests)
    {
      var p :| p in done + {s} && d in Destinations(t, p, symbol);
      if p != s {
        assert d in Step(t, done, symbol);
      }
    }
    forall d | d in Step(t, done, symbol) + Elements(dests)
      ensures d in Step(t, done + {s}, symbol)
    {
      if d !in Elements(dests) {
        var p :| p in done && d in Destinations(t, p, symbol);
        assert p in done + {s};
      }
    }
  }

  /** The next set is the union of the per-state destination sets: it
      distributes over union, a single state contributes the elements of its
      list, and a state without an entry for the symbol contributes nothing. */
  lemma StepIsUnion(t: Table, x: set<int>, y: set<int>, s: int, symbol: char)
    ensures Step(t, x + y, symbol) == Step(t, x, symbol) + Step(t, y, symbol)
    ensures Step(t, {s}, symbol) == Elements(Destinations(t, s, symbol))
    ensures (s !in t || symbol !in t[s]) ==> Step(t, x + {s}, symbol) == Step(t, x, symbol)
    ensures Step(t, {}, symbol) == {}
  {
    StepAddState(t, x, s, symbol);
    StepAddState(t, {}, s, symbol);
    assert {} + {s} == {s};
  }

  /** The empty word is accepted iff the start state is final. */
  lemma EmptyWord(a: Automaton)
    ensures Accepts(a, "") <==> a.startState in a.finalStates
  {
    assert Reachable(a, "") == {a.startState};
    if a.startState in a.finalStates {
      assert a.startState in Reachable(a, "") * a.finalStates;
    }
  }

  /** Once a prefix drives the active set to empty, every extension of that
      prefix reaches nothing and is rejected. */
  lemma {:induction false} DeadPrefixRejects(a: Automaton, u: string, v: string)
    requires Reachable(a, u) == {}
    ensures Reachable(a, u + v) == {}
    ensures !Accepts(a, u + v)
    decreases |v|
  {
    if v == [] {
      assert u + v == u;
    } else {
      var v' := v[..|v| - 1];
      DeadPrefixRejects(a, u, v');
      assert (u + v)[..|u + v| - 1] == u + v';
    }
  }

  /** A state is reachable after `w` iff some run over `w` ends in it. */
  lemma {:induction false} ReachableIffRun(a: Automaton, w: string, q: int)
    ensures q in Reachable(a, w) <==> exists run :: IsRun(a, w, run) && run[|w|] == q
    decreases |w|
  {
    if w == [] {
      if q in Reachable(a, w) {
        assert IsRun(a, w, [q]);
      }
    } else {
      var w', c := w[..|w| - 1], w[|w| - 1];
      if q in Reachable(a, w) {
        var p :| p in Reachable(a, w') && q in Destinations(a.transitions, p, c);
        ReachableIffRun(a, w', p);
        var run' :| IsRun(a, w', run') && run'[|w'|] == p;
        RunExtend(a, w', c, run', q);
        assert w' + [c] == w;
      }
      if run :| IsRun(a, w, run) && run[|w|] == q {
        RunPrefix(a, w, run);
        ReachableIffRun(a, w', run[|w'|]);
        assert q in Destinations(a.transitions, run[|w'|], c);
      }
    }
  }

  /** A run over `w` extended by one recorded transition is a run over `w + [c]`. */
  lemma RunExtend(a: Automaton, w: string, c: char, run: seq<int>, q: int)
    requires IsRun(a, w, run)
    requires q in Destinations(a.transitions, run[|w|], c)
    ensures IsRun(a, w + [c], run + [q])
  {
    var w2, run2 := w + [c], run + [q];
    forall i | 0 <= i < |w2|
      ensures run2[i + 1] in Destinations(a.transitions, run2[i], w2[i])
    {
      if i < |w| {
        assert run2[i] == run[i] && run2[i + 1] == run[i + 1] && w2[i] == w[i];
      }
    }
  }

  /** Dropping the last step of a run over a non-empty word gives a run over
      the word without its last character. */
  lemma RunPrefix(a: Automaton, w: string, run: seq<int>)
    requires w != [] && IsRun(a, w, run)
    ensures IsRun(a, w[..|w| - 1], run[..|w|])
  {
    var w1, run1 := w[..|w| - 1], run[..|w|];
    forall i | 0 <= i < |w1|
      ensures run1[i + 1] in Destinations(a.transitions, run1[i], w1[i])
    {
      assert run1[i] == run[i] && run1[i + 1] == run[i + 1] && w1[i] == w[i];
    }
  }

  /** Acceptance rule, path form: a word is accepted iff some run from the
      start state consumes all of it and ends in a final state. */
  lemma AcceptsIffAcceptingRun(a: Automaton, w: string)
    ensures Accepts(a, w) <==> exists run :: IsRun(a, w, run) && run[|w|] in a.finalStates
  {
    if Accepts(a, w) {
      var q :| q in Reachable(a, w) * a.finalStates;
      ReachableIffRun(a, w, q);
    }
    if run :| IsRun(a, w, run) && run[|w|] in a.finalStates {
      ReachableIffRun(a, w, run[|w|]);
      assert run[|w|] in Reachable(a, w) * a.finalStates;
    }
  }

  /** Two tables record the same destination sets for every state and symbol. */
  ghost predicate SameDestinationSets(t: Table, u: Table)
  {
    forall s, c :: Elements(Destinations(t, s, c)) == Elements(Destinations(u, s, c))
  }

  /** The reached set depends only on the destination sets, not on the order
      or repetition of the entries in the transition lists. */
  lemma {:induction false} ReachableOrderFree(a: Automaton, b: Automaton, w: string)
    requires a.startState == b.startState
    requires SameDestinationSets(a.transitions, b.transitions)
    ensures Reachable(a, w) == Reachable(b, w)
    decreases |w|
  {
    if w != [] {
      var w', c := w[..|w| - 1], w[|w| - 1];
      ReachableOrderFree(a, b, w');
      var r := Reachable(a, w');
      forall d | d in Step(a.transitions, r, c) ensures d in Step(b.transitions, r, c) {
        var s :| s in r && d in Destinations(a.transitions, s, c);
        assert d in Elements(Destinations(a.transitions, s, c));
      }
      forall d | d in Step(b.transitions, r, c) ensures d in Step(a.transitions, r, c) {
        var s :| s in r && d in Destinations(b.transitions, s, c);
        assert d in Elements(Destinations(b.transitions, s, c));
      }
    }
  }

  /** The verdict is the same for automata that differ only in the order or
      duplication of destinations. */
  lemma AcceptsOrderFree(a: Automaton, b: Automaton, w: string)
    requires a.startState == b.startState && a.finalStates == b.finalStates
    requires SameDestinationSets(a.transitions, b.transitions)
    ensures Accepts(a, w) <==> Accepts(b, w)
  {
    ReachableOrderFree(a, b, w);
  }

  /** The verdict does not look at the alphabet or the state set: a word that
      uses undeclared symbols is simply judged by its transitions. */
  lemma {:induction false} AcceptsIgnoresDeclarations(a: Automaton, alphabet: set<char>, states: set<int>, w: string)
    ensures Reachable(a, w) == Reachable(a.(alphabet := alphabet, states := states), w)
    ensures Accepts(a, w) <==> Accepts(a.(alphabet := alphabet, states := states), w)
    decreases |w|
  {
    if w != [] {
      AcceptsIgnoresDeclarations(a, alphabet, states, w[..|w| - 1]);
    }
  }
}
