# UnixLaba4 NFA — a Dafny model

UnixLaba4 is a small console program. It holds a non-deterministic finite
automaton (NFA) over single characters. It loads the automaton from a
description file and checks words against it. This project models its core:

- the `NFA` record (alphabet, states, final states, start state, and
  transitions from a state and a symbol to a list of destination states);
- `loadNFA`, which fills a caller-owned `NFA` from the description file;
- `acceptsWord`, the subset simulation that decides acceptance;
- the check in `main` that a word uses only alphabet symbols before it is
  simulated.

Layout:

- `automaton.dfy` (module `Automata`): the `Automaton` value, the `Nfa` class
  whose fields the loader updates in place, and the lookup `Destinations`.
  `Destinations` returns the empty list when the state or the symbol is absent.
- `acceptance.dfy` (module `Acceptance`): `Reachable` is the set of states
  reachable from the start state along a word. `Accepts` says that set meets
  the final states. `IsRun` is a path-based reading of acceptance.
  `AcceptsWord` and `NextStates` are the source's loops, proved against
  `Accepts` and `Step`.
- `loader.dfy` (module `Loader`): the tokenised description, the
  `LoadNfa` method over an `Nfa` object, and `Loaded`, the automaton value it
  leaves behind.
- `validation.dfy` (module `Validation`): the alphabet check and the list of
  offending characters.
- `scenarios.dfy` (module `Scenarios`): worked examples that combine the
  loader and the engine, and a client `Session` method.

`acceptsWord` takes a `const NFA&`. The model passes it the immutable
`Automaton` value (`Nfa.View()`), so the engine cannot change the automaton.

One might expect an all-or-nothing loader with a parse-error path that
replaces the previous automaton. The code has neither, and the model follows
the code:

- There is no parse-error path. A file that opens always loads, and
  `loadNFA` returns `false` only when the file cannot be opened.
- Loading inserts into the `NFA` it is given and never clears it. A second
  load adds to everything the first one left, except the start state, which
  the new file overwrites (`Loader.ReloadAccumulates`, `Loader.LoadedContents`).
- The start state, the final states and the transition endpoints are not
  checked against the state set.

## Model

| member | source | states |
|---|---|---|
| `Automata.Nfa.constructor` | UnixLaba4/UnixLaba4.cpp:17-23 | A newly declared NFA has an empty alphabet, no states, no final states and no transitions; its start state is unspecified |
| `Acceptance.NextStates` | UnixLaba4/UnixLaba4.cpp:77-83 | The loop over the current states builds exactly the union of their destination lists under the symbol |
| `Acceptance.StepIsUnion` | UnixLaba4/UnixLaba4.cpp:77-83 | The next set distributes over union of current sets; one state contributes the elements of its list; a state or symbol with no entry contributes nothing; no current states give no next states |
| `Acceptance.StepAddState` | UnixLaba4/UnixLaba4.cpp:78-82 | Adding one more current state adds exactly the elements of its destination list to the next set |
| `Acceptance.AcceptsWord` | UnixLaba4/UnixLaba4.cpp:73-98 | The simulation, with its early rejection and its final scan, returns true iff the states reachable from the start state along the whole word meet the final states |
| `Acceptance.EmptyWord` | UnixLaba4/UnixLaba4.cpp:74-76 | The empty word is accepted iff the start state is a final state |
| `Acceptance.DeadPrefixRejects` | UnixLaba4/UnixLaba4.cpp:84-86 | If a prefix leaves no active state, every extension of it reaches no state and is rejected |
| `Acceptance.ReachableIffRun` | UnixLaba4/UnixLaba4.cpp:76-88 | A state is in the active set after a word iff some sequence of recorded transitions from the start state consumes the word and ends in it |
| `Acceptance.AcceptsIffAcceptingRun` | UnixLaba4/UnixLaba4.cpp:73-98 | A word is accepted iff some run from the start state consumes all of it and ends in a final state |
| `Acceptance.ReachableOrderFree` | UnixLaba4/UnixLaba4.cpp:80-81 | The active sets depend only on the set of destinations per state and symbol, not on their order or repetition |
| `Acceptance.AcceptsOrderFree` | UnixLaba4/UnixLaba4.cpp:73-98 | Two automata with the same start, finals and destination sets accept the same words |
| `Acceptance.AcceptsIgnoresDeclarations` | UnixLaba4/UnixLaba4.cpp:73-98 | Acceptance does not depend on the declared alphabet or state set: a symbol outside the alphabet is followed along whatever records name it |
| `Loader.LoadNfa` | UnixLaba4/UnixLaba4.cpp:26-70 | Fails, leaving the NFA unchanged, iff the file cannot be opened; otherwise the NFA becomes `Loaded` of its previous contents |
| `Loader.LettersExact` | UnixLaba4/UnixLaba4.cpp:38-40 | Alphabet size k inserts exactly the lowercase letters whose offset from 'a' is below k |
| `Loader.LettersBounds` | UnixLaba4/UnixLaba4.cpp:38-40 | A size of 26 or more gives exactly the 26 lowercase letters; a size of 0 or less gives none |
| `Loader.StateRangeExact` | UnixLaba4/UnixLaba4.cpp:45-47 | n states insert exactly the states 0..n-1 (none when n is 0 or less) |
| `Loader.AppendAllDestinations` | UnixLaba4/UnixLaba4.cpp:64-66 | After the records are read, each destination list equals the old list followed by the destinations of the matching records, in file order |
| `Loader.MatchingCounts` | UnixLaba4/UnixLaba4.cpp:64-66 | A record that occurs m times adds its destination m times: repeated records accumulate |
| `Loader.LoadedContents` | UnixLaba4/UnixLaba4.cpp:33-66 | After loading, membership of alphabet, states and final states is the old membership or the new letters, states 0..n-1 and listed finals; the start state is the one read, with no range check; destination lists are extended by the records |
| `Loader.LoadKeepsPrevious` | UnixLaba4/UnixLaba4.cpp:38-66 | Loading removes nothing: old alphabet, states and finals are kept and every old destination list is a prefix of the new one |
| `Loader.ReloadAccumulates` | UnixLaba4/UnixLaba4.cpp:125 | Two loads into the same NFA accumulate letters, final states and the records of both files, in order |
| `Validation.ValidateWord` | UnixLaba4/UnixLaba4.cpp:157-165 | The word is valid iff every character is in the alphabet; the message lists the offending characters, each followed by a space |
| `Validation.OffendingMembers` | UnixLaba4/UnixLaba4.cpp:159-161 | A character is listed as offending iff it occurs in the word and is not in the alphabet |
| `Validation.NoOffendingIffValid` | UnixLaba4/UnixLaba4.cpp:157-165 | The offending list is empty iff every character of the word is in the alphabet |
| `Validation.SpacedLayout` | UnixLaba4/UnixLaba4.cpp:162-163 | The message has twice as many characters as there are offending ones, and each offending character is followed by one space |
| `Validation.ReportEmptyIffValid` | UnixLaba4/UnixLaba4.cpp:157-168 | The message is empty iff the word is valid |
| `Scenarios.AbExample` | UnixLaba4/UnixLaba4.cpp:26-98 | The automaton with alphabet {a, b}, states 0..2, start 0, final {2} and records 0 a 1, 1 b 2 accepts "ab" and rejects "aa", "" and "b" |
| `Scenarios.UndeclaredSymbolFollowed` | UnixLaba4/UnixLaba4.cpp:64-83 | With alphabet {a} and the record 0 b 1, 'b' is not in the alphabet and the word "b" is still accepted |
| `Scenarios.NondeterministicUnion` | UnixLaba4/UnixLaba4.cpp:64-83 | With records 0 a 1 and 0 a 2, after reading "a" both 1 and 2 are active |

## Left out

- Console I/O is not modelled: the menu loop of `main`, `printINFO`, the ANSI colour macros, every `cin`/`cout`/`cerr` output, the "exit" word and the `fileLoaded` flag. `Scenarios.Session` shows the calling order instead.
- File handling is abstract. Opening the file is a `Source` that is either `Unreadable` or the tokens read from it.
- The exact C++ extraction rules for malformed or truncated files are not modelled. A malformed number token stores 0; at end of input a read leaves its variable unchanged (so a truncated reload can keep the old start state); after either, every later read fails, and an incomplete last record is dropped. A `Description` holds complete, well-formed tokens, and the count of final states is the length of its final-state list.
- The iteration order of `unordered_set` and `unordered_map` is not modelled. It only affects the order in which the alphabet is printed. Sets are Dafny `set`s, and destination lists are `seq`s because `push_back` order is kept.
- 32-bit `int` limits on sizes and state numbers are not modelled; numbers are unbounded integers. A value that does not fit fails to extract in C++, which is part of the extraction rules above.
- Text is modelled as Dafny `char`s, one per C++ `char` (one byte). Multibyte characters are not modelled: for a word with a non-ASCII character such as "é" (two UTF-8 bytes), the program lists each byte followed by a space, while `Validation.ValidateWord` lists the one character, so `Validation.SpacedLayout`'s length describes the message only for single-byte text. Both agree on whether the word is valid.
