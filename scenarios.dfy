/**
 * Whole sessions worked through event by event: the passage "cat dog" typed
 * correctly, a mistyped letter corrected, and a backspace after a two-byte
 * letter.
 */
module Scenarios {
  import opened Utf8
  import opened Strings
  import opened Typing

  const Cat: Bytes := [0x63, 0x61, 0x74]
  const Dog: Bytes := [0x64, 0x6F, 0x67]

  lemma CatDogWords()
    ensures Fields(Cat + [0x20] + Dog) == [Cat, Dog]
  {
    var text := Cat + [0x20] + Dog;
    assert text == [0x63, 0x61, 0x74, 0x20, 0x64, 0x6F, 0x67];
    assert RunLength(text[3..]) == 0;
    assert text[2..][1..] == text[3..];
    assert text[1..][1..] == text[2..];
    assert RunLength(text) == 3;
    assert text[..3] == Cat && text[3..] == [0x20] + Dog;
    assert RunLength(Dog[3..]) == 0;
    assert Dog[2..][1..] == Dog[3..];
    assert Dog[1..][1..] == Dog[2..];
    assert RunLength(Dog) == 3;
    assert Dog[..3] == Dog && Dog[3..] == [];
    assert Fields(Dog) == [Dog];
  }

  /** Typing an ASCII character that keeps the input a prefix of the current word. */
  lemma TypeMatchingChar(s: Snapshot, c: Rune)
    requires 0 < c < 0x80 && s.pos < |s.words|
    requires HasPrefix(s.words[s.pos], s.input + [c])
    ensures var t := s.(input := s.input + [c], ok := true);
      AfterEvent(s, KeyEvent(0, c)) == (t, if Finishes(t) then Finished else Continue)
  {
  }

  lemma RunCons(s: Snapshot, e: Event, rest: seq<Event>, t: Snapshot)
    requires AfterEvent(s, e) == (t, Continue)
    ensures Run(s, [e] + rest) == Run(t, rest)
  {
    assert ([e] + rest)[1..] == rest;
  }

  /** "c", "a", "t", space: the second word becomes current and the input is cleared. */
  lemma TypeCat(rest: seq<Event>)
    ensures Run(Snapshot([Cat, Dog], 0, [], true),
                [KeyEvent(0, 0x63)] + ([KeyEvent(0, 0x61)] + ([KeyEvent(0, 0x74)] + ([KeyEvent(KeySpace, 0)] + rest))))
         == Run(Snapshot([Cat, Dog], 1, [], true), rest)
  {
    var ws := [Cat, Dog];
    assert Cat[..1] == [0x63] && Cat[..2] == [0x63, 0x61] && Cat[..3] == Cat;
    var s0 := Snapshot(ws, 0, [], true);
    var s1 := Snapshot(ws, 0, [0x63], true);
    var s2 := Snapshot(ws, 0, [0x63, 0x61], true);
    var s3 := Snapshot(ws, 0, Cat, true);
    var s4 := Snapshot(ws, 1, [], true);
    assert AfterEvent(s3, KeyEvent(KeySpace, 0)) == (s4, Continue);
    RunCons(s3, KeyEvent(KeySpace, 0), rest, s4);
    TypeMatchingChar(s2, 0x74);
    assert [0x63, 0x61] + [0x74] == Cat;
    RunCons(s2, KeyEvent(0, 0x74), [KeyEvent(KeySpace, 0)] + rest, s3);
    TypeMatchingChar(s1, 0x61);
    RunCons(s1, KeyEvent(0, 0x61), [KeyEvent(0, 0x74)] + ([KeyEvent(KeySpace, 0)] + rest), s2);
    TypeMatchingChar(s0, 0x63);
    RunCons(s0, KeyEvent(0, 0x63), [KeyEvent(0, 0x61)] + ([KeyEvent(0, 0x74)] + ([KeyEvent(KeySpace, 0)] + rest)), s1);
  }

  /** "d", "o", "g" on the last word: the "g" finishes the session, no space needed. */
  lemma TypeDog()
    ensures Run(Snapshot([Cat, Dog], 1, [], true), [KeyEvent(0, 0x64)] + ([KeyEvent(0, 0x6F)] + [KeyEvent(0, 0x67)]))
         == (Snapshot([Cat, Dog], 1, Dog, true), Finished)
  {
    var ws := [Cat, Dog];
    assert Dog[..1] == [0x64] && Dog[..2] == [0x64, 0x6F] && Dog[..3] == Dog;
    var s4 := Snapshot(ws, 1, [], true);
    var s5 := Snapshot(ws, 1, [0x64], true);
    var s6 := Snapshot(ws, 1, [0x64, 0x6F], true);
    var s7 := Snapshot(ws, 1, Dog, true);
    var last := KeyEvent(0, 0x67);
    TypeMatchingChar(s6, 0x67);
    assert [0x64, 0x6F] + [0x67] == Dog;
    assert Run(s6, [last]) == (s7, Finished);
    TypeMatchingChar(s5, 0x6F);
    RunCons(s5, KeyEvent(0, 0x6F), [last], s6);
    TypeMatchingChar(s4, 0x64);
    RunCons(s4, KeyEvent(0, 0x64), [KeyEvent(0, 0x6F)] + [last], s5);
  }

  /** The session over "cat dog" typed without a mistake ends on the final "g". */
  lemma CatDogSession()
    ensures
      Run(Initial(Cat + [0x20] + Dog),
          [KeyEvent(0, 0x63)] + ([KeyEvent(0, 0x61)] + ([KeyEvent(0, 0x74)] + ([KeyEvent(KeySpace, 0)] +
          ([KeyEvent(0, 0x64)] + ([KeyEvent(0, 0x6F)] + [KeyEvent(0, 0x67)]))))))
        == (Snapshot([Cat, Dog], 1, Dog, true), Finished)
  {
    CatDogWords();
    TypeCat([KeyEvent(0, 0x64)] + ([KeyEvent(0, 0x6F)] + [KeyEvent(0, 0x67)]));
    TypeDog();
  }

  /** On "cat", "ca" matches; backspace and "x" give "cx", which neither matches nor finishes. */
  lemma MistypedLetter()
    ensures var s := Snapshot([Cat], 0, [0x63, 0x61], true);
      && Matches(s)
      && var t := AfterEvent(AfterEvent(s, KeyEvent(KeyBackspace2, 0)).0, KeyEvent(0, 0x78));
         t == (Snapshot([Cat], 0, [0x63, 0x78], false), Continue)
  {
    var s := Snapshot([Cat], 0, [0x63, 0x61], true);
    assert Cat[..2] == [0x63, 0x61];
    var u := Snapshot([Cat], 0, [0x63], true);
    assert [0x63, 0x61][..1] == [0x63];
    assert Cat[..1] == [0x63];
    assert AfterEvent(s, KeyEvent(KeyBackspace2, 0)) == (u, Continue);
    assert [0x63] + [0x78] == [0x63, 0x78];
    assert Cat[..2] != [0x63, 0x78] by { assert Cat[..2][1] == 0x61; }
  }

  /**
   * Backspace removes one byte, not one letter: after typing "é" (two bytes)
   * and one backspace, the input holds the stray leading byte 0xC3, which
   * decodes to U+FFFD.
   */
  lemma BackSpaceSplitsLetter(s: Snapshot)
    ensures var t := AfterBackSpace(AfterGetRune(s, 0xE9));
      t.input == s.input + [0xC3] && Decode([0xC3]) == [RuneError]
  {
    assert EncodeRune(0xE9) == [0xC3, 0xA9];
    var u := s.input + [0xC3, 0xA9];
    assert u[..|u| - 1] == s.input + [0xC3];
  }
}
