/**
 The check that `main` makes before a word is handed to the engine: every
 character must belong to the alphabet, and the offending characters are
 collected for the error message, each followed by a space.
 */
module Validation {

  /** The characters of `w` outside `alphabet`, in order, repeats included. */
  function Offending(alphabet: set<char>, w: string): string
    decreases |w|
  {
    if w == [] then []
    else
      var c := w[|w| - 1];
      Offending(alphabet, w[..|w| - 1]) + (if c in alphabet then [] else [c])
  }

  /** Each character of `s` followed by one space. */
  function Spaced(s: string): string
    decreases |s|
  {
    if s == [] then [] else Spaced(s[..|s| - 1]) + [s[|s| - 1], ' ']
  }

  /** The validation loop: `valid` says whether every character is in the
      alphabet; `invalidSymbols` lists the offending characters, each
      followed by a space. */
  method ValidateWord(alphabet: set<char>, word: string) returns (valid: bool, invalidSymbols: string)
    ensures valid <==> forall i :: 0 <= i < |word| ==> word[i] in alphabet
    ensures invalidSymbols == Spaced(Offending(alphabet, word))
  {
    valid := true;
    invalidSymbols := "";
    for i := 0 to |word|
      invariant valid <==> forall j :: 0 <= j < i ==> word[j] in alphabet
      invariant invalidSymbols == Spaced(Offending(alphabet, word[..i]))
    {
      var c := word[i];
      OffendingStep(alphabet, word, i);
      if c !in alphabet {
        valid := false;
        SpacedStep(Offending(alphabet, word[..i]), c);
        invalidSymbols := invalidSymbols + [c];
        invalidSymbols := invalidSymbols + " ";
        assert invalidSymbols == Spaced(Offending(alphabet, word[..i])) + [c, ' '];
      }
    }
    assert word[..|word|] == word;
  }

  /** Reading one more character of the word extends the offending list by
      that character exactly when it is outside the alphabet. */
  lemma OffendingStep(alphabet: set<char>, w: string, i: int)
    requires 0 <= i < |w|
    ensures w[i] in alphabet ==> Offending(alphabet, w[..i + 1]) == Offending(alphabet, w[..i])
    ensures w[i] !in alphabet ==> Offending(alphabet, w[..i + 1]) == Offending(alphabet, w[..i]) + [w[i]]
  {
    assert w[..i + 1][..i] == w[..i];
  }

  /** One more offending character adds it and a space to the message. */
  lemma SpacedStep(s: string, c: char)
    ensures Spaced(s + [c]) == Spaced(s) + [c, ' ']
  {
    assert (s + [c])[..|s|] == s;
  }

  /** A character occurs among the offending ones iff it occurs in the word
      and is not in the alphabet. */
  lemma {:induction false} OffendingMembers(alphabet: set<char>, w: string, c: char)
    ensures c in Offending(alphabet, w) <==> c in w && c !in alphabet
    decreases |w|
  {
    if w != [] {
      var w' := w[..|w| - 1];
      OffendingMembers(alphabet, w', c);
      assert w == w' + [w[|w| - 1]];
    }
  }

  /** A word has no offending characters iff all its characters are in the alphabet. */
  lemma {:induction false} NoOffendingIffValid(alphabet: set<char>, w: string)
    ensures Offending(alphabet, w) == [] <==> forall i :: 0 <= i < |w| ==> w[i] in alphabet
  {
    if Offending(alphabet, w) == [] {
      forall i | 0 <= i < |w| ensures w[i] in alphabet {
        OffendingMembers(alphabet, w, w[i]);
      }
    } else {
      var c := Offending(alphabet, w)[0];
      OffendingMembers(alphabet, w, c);
    }
  }

  /** The report puts the j-th offending character at position 2j and a
      space right after it, and nothing else. */
  lemma {:induction false} SpacedLayout(s: string)
    ensures |Spaced(s)| == 2 * |s|
    ensures forall j :: 0 <= j < |s| ==> Spaced(s)[2 * j] == s[j] && Spaced(s)[2 * j + 1] == ' '
    decreases |s|
  {
    if s != [] {
      var s' := s[..|s| - 1];
      SpacedLayout(s');
      assert Spaced(s) == Spaced(s') + [s[|s| - 1], ' '];
      forall j | 0 <= j < |s| ensures Spaced(s)[2 * j] == s[j] && Spaced(s)[2 * j + 1] == ' ' {
        if j < |s'| {
          assert s'[j] == s[j];
        }
      }
    }
  }

  /** The message is empty iff the word is valid. */
  lemma {:induction false} ReportEmptyIffValid(alphabet: set<char>, w: string)
    ensures Spaced(Offending(alphabet, w)) == [] <==> forall i :: 0 <= i < |w| ==> w[i] in alphabet
  {
    SpacedLayout(Offending(alphabet, w));
    NoOffendingIffValid(alphabet, w);
  }
}
