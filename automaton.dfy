/**
 The automaton of UnixLaba4: a non-deterministic finite automaton over single
 characters. `Automaton` is its value (what a `const NFA&` lets a reader see);
 `Nfa` is the object the loader fills in place.
 */
module Automata {

  /** transitions[from][symbol] is the list of destination states, in the
      order the loader appended them; duplicates are kept. */
  type Table = map<int, map<char, seq<int>>>

  datatype Automaton = Automaton(
    alphabet: set<char>,
    states: set<int>,
    finalStates: set<int>,
    startState: int,
    transitions: Table)

  /** The elements of a sequence, forgetting order and duplicates. */
  function Elements<T>(s: seq<T>): set<T>
  {
    set x | x in s
  }

  /** The destinations recorded for (from, symbol); a missing state or a
      missing symbol gives the empty list, not an error. */
  function Destinations(t: Table, from: int, symbol: char): seq<int>
  {
    if from in t && symbol in t[from] then t[from][symbol] else []
  }

  /** The inner map transitions[from], or an empty one when there is none
      (what `operator[]` default-constructs). */
  function Row(t: Table, from: int): map<char, seq<int>>
  {
    if from in t then t[from] else map[]
  }

  /** The mutable automaton that the loader writes into. */
  class Nfa {
    var alphabet: set<char>
    var states: set<int>
    var finalStates: set<int>
    var startState: int
    var transitions: Table

    /** A freshly declared NFA: empty sets and no transitions. The start
        state is left unspecified, as the source leaves it uninitialised. */
    constructor ()
      ensures alphabet == {} && states == {} && finalStates == {}
      ensures transitions == map[]
    {
      alphabet, states, finalStates := {}, {}, {};
      transitions := map[];
    }

    /** The current contents of the object as a value. */
    function View(): Automaton
      reads this
    {
      Automaton(alphabet, states, finalStates, startState, transitions)
    }
  }
}
