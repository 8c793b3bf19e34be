/**
 The automaton loader (loadNFA). The description file is taken as already
 tokenised: `Source` is either a file that cannot be opened or the values
 read from it. `LoadNfa` writes into a caller-owned `Nfa` step by step and
 never clears it; `Loaded` is the value it leaves behind, and the lemmas
 below say what that value contains.
 */
module Loader {
  import opened Automata

  /** One transition record `from symbol to`. */
  datatype Transition = Transition(from: int, symbol: char, to: int)

  /** The tokens of a description file, in reading order: the alphabet size,
      the number of states, the start state, the final-state tokens (their
      count f is |finalStates|) and the transition records up to end of input. */
  datatype Description = Description(
    alphabetSize: int,
    numStates: int,
    startState: int,
    finalStates: seq<int>,
    transitions: seq<Transition>)

  datatype Source = Unreadable | Readable(description: Description)

  /** The i-th lowercase letter. */
  function Letter(i: int): char
    requires 0 <= i < 26
  {
    ('a' as int + i) as char
  }

  /** The letters the loader inserts for alphabet size k: the first k
      lowercase letters, at most 26 of them. */
  function Letters(k: int): set<char>
  {
    set i | 0 <= i < k && i < 26 :: Letter(i)
  }

  /** The states the loader inserts for n states. */
  function StateRange(n: int): set<int>
    decreases n
  {
    if n <= 0 then {} else StateRange(n - 1) + {n - 1}
  }

  /** transitions[from][symbol].push_back(to): missing inner entries are
      created empty before the append. */
  function AddTransition(t: Table, tr: Transition): Table
  {
    t[tr.from := Row(t, tr.from)[tr.symbol := Destinations(t, tr.from, tr.symbol) + [tr.to]]]
  }

  /** The table after appending every record of `ts`, in order. */
  function AppendAll(t: Table, ts: seq<Transition>): Table
    decreases |ts|
  {
    if ts == [] then t else AddTransition(AppendAll(t, ts[..|ts| - 1]), ts[|ts| - 1])
  }

  /** The destinations that the records of `ts` add for (from, symbol), in order. */
  function Matching(ts: seq<Transition>, from: int, symbol: char): seq<int>
    decreases |ts|
  {
    if ts == [] then []
    else
      var tr := ts[|ts| - 1];
      Matching(ts[..|ts| - 1], from, symbol) + (if tr.from == from && tr.symbol == symbol then [tr.to] else [])
  }

  /** The automaton that loading `d` into `m` leaves behind. */
  function Loaded(m: Automaton, d: Description): Automaton
  {
    Automaton(
      m.alphabet + Letters(d.alphabetSize),
      m.states + StateRange(d.numStates),
      m.finalStates + Elements(d.finalStates),
      d.startState,
      AppendAll(m.transitions, d.transitions))
  }

  /** loadNFA: fail, leaving the automaton untouched, when the file cannot be
      opened; otherwise insert the letters, the states, the start state, the
      final states and the transitions into `nfa`, on top of what it holds. */
  method LoadNfa(source: Source, nfa: Nfa) returns (ok: bool)
    modifies nfa
    ensures ok <==> source.Readable?
    ensures !ok ==> nfa.View() == old(nfa.View())
    ensures ok ==> nfa.View() == Loaded(old(nfa.View()), source.description)
  {
    if source.Unreadable? {
      return false;
    }
    var d := source.description;

    var i := 0;
    while i < d.alphabetSize && i < 26
      invariant 0 <= i <= 26
      invariant i <= d.alphabetSize || i == 0
      invariant nfa.alphabet == old(nfa.alphabet) + Letters(i)
      invariant nfa.View() == old(nfa.View()).(alphabet := nfa.alphabet)
    {
      assert Letters(i + 1) == Letters(i) + {Letter(i)};
      nfa.alphabet := nfa.alphabet + {Letter(i)};
      i := i + 1;
    }
    assert Letters(i) == Letters(d.alphabetSize);
    ghost var afterAlphabet := nfa.View();

    i := 0;
    while i < d.numStates
      invariant 0 <= i && (i <= d.numStates || i == 0)
      invariant nfa.states == old(nfa.states) + StateRange(i)
      invariant nfa.View() == afterAlphabet.(states := nfa.states)
    {
      nfa.states := nfa.states + {i};
      i := i + 1;
    }
    assert StateRange(i) == StateRange(d.numStates);

    nfa.startState := d.startState;
    ghost var afterStart := nfa.View();

    i := 0;
    while i < |d.finalStates|
      invariant 0 <= i <= |d.finalStates|
      invariant nfa.finalStates == old(nfa.finalStates) + Elements(d.finalStates[..i])
      invariant nfa.View() == afterStart.(finalStates := nfa.finalStates)
    {
      assert Elements(d.finalStates[..i + 1]) == Elements(d.finalStates[..i]) + {d.finalStates[i]} by {
        assert d.finalStates[..i + 1] == d.finalStates[..i] + [d.finalStates[i]];
      }
      nfa.finalStates := nfa.finalStates + {d.finalStates[i]};
      i := i + 1;
    }
    assert d.finalStates[..i] == d.finalStates;
    ghost var afterFinals := nfa.View();

    i := 0;
    while i < |d.transitions|
      invariant 0 <= i <= |d.transitions|
      invariant nfa.transitions == AppendAll(old(nfa.transitions), d.transitions[..i])
      invariant nfa.View() == afterFinals.(transitions := nfa.transitions)
    {
      var tr := d.transitions[i];
      assert d.transitions[..i + 1][..i] == d.transitions[..i];
      var row := if tr.from in nfa.transitions then nfa.transitions[tr.from] else map[];
      var dests := if tr.symbol in row then row[tr.symbol] else [];
      nfa.transitions := nfa.transitions[tr.from := row[tr.symbol := dests + [tr.to]]];
      i := i + 1;
    }
    assert d.transitions[..i] == d.transitions;
    return true;
  }

  /** The alphabet size gives exactly the letters 'a' up to 'a' + min(k, 26) - 1. */
  lemma LettersExact(k: int, c: char)
    ensures c in Letters(k) <==> 'a' <= c <= 'z' && (c as int) - ('a' as int) < k
  {
    if 'a' <= c <= 'z' && (c as int) - ('a' as int) < k {
      var i := (c as int) - ('a' as int);
      assert Letter(i) == c;
    }
  }

  /** An alphabet size of at least 26 is truncated to the 26 lowercase
      letters; a size of zero or less inserts none. */
  lemma LettersBounds(k: int)
    ensures k >= 26 ==> forall c :: c in Letters(k) <==> 'a' <= c <= 'z'
    ensures k >= 26 ==> Letters(k) == Letters(26)
    ensures k <= 0 ==> Letters(k) == {}
  {
    forall c ensures c in Letters(k) <==> 'a' <= c <= 'z' && (c as int) - ('a' as int) < k {
      LettersExact(k, c);
    }
    forall c ensures c in Letters(26) <==> 'a' <= c <= 'z' {
      LettersExact(26, c);
    }
  }

  /** n states give exactly the states 0..n-1. */
  lemma {:induction false} StateRangeExact(n: int, q: int)
    ensures q in StateRange(n) <==> 0 <= q < n
    decreases n
  {
    if n > 0 {
      StateRangeExact(n - 1, q);
    }
  }

  /** The records of `ts` append their destinations, in order, after the
      destinations already in the table; other keys are untouched. */
  lemma {:induction false} AppendAllDestinations(t: Table, ts: seq<Transition>, from: int, symbol: char)
    ensures Destinations(AppendAll(t, ts), from, symbol) == Destinations(t, from, symbol) + Matching(ts, from, symbol)
    decreases |ts|
  {
    if ts != [] {
      var ts', tr := ts[..|ts| - 1], ts[|ts| - 1];
      AppendAllDestinations(t, ts', from, symbol);
    }
  }

  /** Loading adds exactly the letters for the alphabet size and the states
      0..n-1, stores the start state and the final tokens as given (no range
      check against the state set), and appends every record's destination
      after those already present. */
  lemma LoadedContents(m: Automaton, d: Description)
    ensures forall c :: c in Loaded(m, d).alphabet <==>
      c in m.alphabet || ('a' <= c <= 'z' && (c as int) - ('a' as int) < d.alphabetSize)
    ensures forall q :: q in Loaded(m, d).states <==> q in m.states || 0 <= q < d.numStates
    ensures Loaded(m, d).startState == d.startState
    ensures forall q :: q in Loaded(m, d).finalStates <==> q in m.finalStates || q in d.finalStates
    ensures forall from, symbol ::
      Destinations(Loaded(m, d).transitions, from, symbol)
        == Destinations(m.transitions, from, symbol) + Matching(d.transitions, from, symbol)
  {
    forall q ensures q in StateRange(d.numStates) <==> 0 <= q < d.numStates {
      StateRangeExact(d.numStates, q);
    }
    forall c ensures c in Letters(d.alphabetSize) <==>
      'a' <= c <= 'z' && (c as int) - ('a' as int) < d.alphabetSize
    {
      LettersExact(d.alphabetSize, c);
    }
    forall from, symbol ensures Destinations(Loaded(m, d).transitions, from, symbol)
        == Destinations(m.transitions, from, symbol) + Matching(d.transitions, from, symbol)
    {
      AppendAllDestinations(m.transitions, d.transitions, from, symbol);
    }
  }

  /** Loading never removes anything: the previous alphabet, states and
      final states are kept, and each previous destination list is a prefix
      of the new one. */
  lemma LoadKeepsPrevious(m: Automaton, d: Description, from: int, symbol: char)
    ensures m.alphabet <= Loaded(m, d).alphabet
    ensures m.states <= Loaded(m, d).states
    ensures m.finalStates <= Loaded(m, d).finalStates
    ensures Destinations(m.transitions, from, symbol)
      <= Destinations(Loaded(m, d).transitions, from, symbol)
  {
    AppendAllDestinations(m.transitions, d.transitions, from, symbol);
  }

  /** Loading twice into the same automaton accumulates: the second load's
      records are appended after the first load's. */
  lemma ReloadAccumulates(m: Automaton, d1: Description, d2: Description, from: int, symbol: char)
    ensures Destinations(Loaded(Loaded(m, d1), d2).transitions, from, symbol)
      == Destinations(m.transitions, from, symbol)
         + Matching(d1.transitions, from, symbol) + Matching(d2.transitions, from, symbol)
    ensures Loaded(Loaded(m, d1), d2).alphabet == m.alphabet + Letters(d1.alphabetSize) + Letters(d2.alphabetSize)
    ensures Loaded(Loaded(m, d1), d2).finalStates == m.finalStates + Elements(d1.finalStates) + Elements(d2.finalStates)
  {
    AppendAllDestinations(m.transitions, d1.transitions, from, symbol);
    AppendAllDestinations(Loaded(m, d1).transitions, d2.transitions, from, symbol);
  }

  /** Every occurrence of a record adds its destination once: repeated
      records accumulate rather than collapse. */
  lemma {:induction false} MatchingCounts(ts: seq<Transition>, from: int, symbol: char, to: int)
    ensures multiset(Matching(ts, from, symbol))[to] == multiset(ts)[Transition(from, symbol, to)]
    decreases |ts|
  {
    if ts != [] {
      var ts', tr := ts[..|ts| - 1], ts[|ts| - 1];
      MatchingCounts(ts', from, symbol, to);
      assert ts == ts' + [tr];
    }
  }
}
