/**
 Worked examples: the loader and the engine together on small descriptions.
 */
module Scenarios {
  import opened Automata
  import opened Acceptance
  import opened Loader
  import Validation

  /** What a freshly declared NFA holds, with some start state `s`. */
  function Blank(s: int): Automaton
  {
    Automaton({}, {}, {}, s, map[])
  }

  /** Alphabet {a, b}, states 0..2, start 0, final {2}, records 0 a 1 and 1 b 2. */
  function AbDescription(): Description
  {
    Description(2, 3, 0, [2], [Transition(0, 'a', 1), Transition(1, 'b', 2)])
  }

  /** The loaded example accepts "ab" and rejects "aa", "" and "b". */
  lemma AbExample(s: int)
    ensures Accepts(Loaded(Blank(s), AbDescription()), "ab")
    ensures !Accepts(Loaded(Blank(s), AbDescription()), "aa")
    ensures !Accepts(Loaded(Blank(s), AbDescription()), "")
    ensures !Accepts(Loaded(Blank(s), AbDescription()), "b")
  {
    var a := Loaded(Blank(s), AbDescription());
    var t := a.transitions;
    var ts := AbDescription().transitions;
    assert ts[..1] == [ts[0]] && [ts[0]][..0] == [];
    AppendAllDestinations(map[], ts, 0, 'a');
    AppendAllDestinations(map[], ts, 0, 'b');
    AppendAllDestinations(map[], ts, 1, 'a');
    AppendAllDestinations(map[], ts, 1, 'b');
    assert Destinations(t, 0, 'a') == [1] && Destinations(t, 1, 'b') == [2];
    assert Destinations(t, 0, 'b') == [] && Destinations(t, 1, 'a') == [];
    assert Reachable(a, "") == {0};
    assert "ab"[..1] == "a" && "aa"[..1] == "a" && "b"[..0] == "";
    assert Reachable(a, "a") == {1} by {
      StepIsUnion(t, {}, {}, 0, 'a');
    }
    assert Reachable(a, "ab") == {2} by {
      StepIsUnion(t, {}, {}, 1, 'b');
    }
    assert 2 in Reachable(a, "ab") * a.finalStates;
    assert Reachable(a, "aa") == {} by {
      StepIsUnion(t, {}, {}, 1, 'a');
    }
    assert Reachable(a, "b") == {} by {
      StepIsUnion(t, {}, {}, 0, 'b');
    }
  }

  /** Two records 0 a 1 and 0 a 2: after "a" both destinations are active. */
  lemma NondeterministicUnion(s: int)
    ensures Reachable(Loaded(Blank(s), Description(1, 3, 0, [], [Transition(0, 'a', 1), Transition(0, 'a', 2)])), "a") == {1, 2}
  {
    var a := Loaded(Blank(s), Description(1, 3, 0, [], [Transition(0, 'a', 1), Transition(0, 'a', 2)]));
    var ts := [Transition(0, 'a', 1), Transition(0, 'a', 2)];
    assert ts[..1] == [ts[0]] && [ts[0]][..0] == [];
    AppendAllDestinations(map[], ts, 0, 'a');
    assert Destinations(a.transitions, 0, 'a') == [1, 2];
    assert "a"[..0] == "";
    StepIsUnion(a.transitions, {}, {}, 0, 'a');
  }

  /** The loader stores a record whatever its symbol, and the engine follows
      it: with alphabet {a} and the record 0 b 1, the word "b" is accepted
      although 'b' is outside the alphabet. */
  lemma UndeclaredSymbolFollowed(s: int)
    ensures 'b' !in Loaded(Blank(s), Description(1, 2, 0, [1], [Transition(0, 'b', 1)])).alphabet
    ensures Accepts(Loaded(Blank(s), Description(1, 2, 0, [1], [Transition(0, 'b', 1)])), "b")
  {
    var a := Loaded(Blank(s), Description(1, 2, 0, [1], [Transition(0, 'b', 1)]));
    var ts := [Transition(0, 'b', 1)];
    LettersExact(1, 'b');
    assert ts[..0] == [];
    AppendAllDestinations(map[], ts, 0, 'b');
    assert Destinations(a.transitions, 0, 'b') == [1];
    assert "b"[..0] == "";
    StepIsUnion(a.transitions, {}, {}, 0, 'b');
    assert 1 in Reachable(a, "b") * a.finalStates;
  }

  /** A client of the model: load the example into a fresh NFA, check a word
      against the alphabet and run the engine only on a valid word, as `main`
      does; a failed reload leaves the NFA as it was. */
  method Session()
  {
    var nfa := new Nfa();
    var ok := LoadNfa(Readable(AbDescription()), nfa);
    assert ok;
    var a := nfa.View();
    assert a == Loaded(Blank(a.startState), AbDescription());
    LettersExact(2, 'a');
    LettersExact(2, 'b');
    LettersExact(2, 'c');

    var valid, invalid := Validation.ValidateWord(a.alphabet, "ab");
    assert valid;
    if valid {
      var accepted := AcceptsWord(a, "ab");
      AbExample(a.startState);
      assert accepted;
    }

    var valid', invalid' := Validation.ValidateWord(a.alphabet, "ac");
    assert !valid' by {
      assert "ac"[1] == 'c';
    }

    var bad := LoadNfa(Unreadable, nfa);
    assert !bad && nfa.View() == a;
  }
}
