/**
 * The typing session: the passage split into words with the index of the
 * current word (TextArea), the bytes typed toward that word (InputArea), and
 * the session (Typo) that owns both, caches whether the input still matches,
 * and turns key events into edits.
 *
 * The pure functions over `Snapshot` say what each operation does to the
 * session's state; the classes update their fields in place, as the program
 * does, and are proved to follow those functions.
 */
module Typing {
  import opened Utf8
  import opened Strings
  import opened Layout

  // ----- Keys and events (termbox) -----

  type Key = k: int | 0 <= k < 0x10000

  const KeyBackspace: Key := 0x08
  const KeyEsc: Key := 0x1B
  const KeySpace: Key := 0x20
  const KeyBackspace2: Key := 0x7F

  /** A key press (a special key, or key 0 with the typed character), a terminal error, or anything else (resize, mouse, ...). */
  datatype Event = KeyEvent(key: Key, ch: Rune) | ErrorEvent | OtherEvent

  /** What the event loop does after one event: wait for the next, show the result, return, or panic. */
  datatype Outcome = Continue | Finished | Cancelled | Aborted

  // ----- The session's state as a value -----

  /** The word at index pos, or the empty string once pos is past the last word. */
  function WordAt(words: seq<Bytes>, pos: nat): (w: Bytes)
    ensures pos < |words| ==> w == words[pos]
    ensures pos >= |words| ==> w == []
  {
    if pos < |words| then words[pos] else []
  }

  /** The words, the current word's index, the typed bytes and the cached match flag. */
  datatype Snapshot = Snapshot(words: seq<Bytes>, pos: nat, input: Bytes, ok: bool)

  /** The input is a prefix of the current word (the colouring test). */
  function Matches(s: Snapshot): (r: bool)
    ensures s.input == [] ==> r
    ensures s.input == WordAt(s.words, s.pos) ==> r
    ensures r ==> |s.input| <= |WordAt(s.words, s.pos)|
    ensures r && s.pos >= |s.words| ==> s.input == []
  {
    HasPrefix(WordAt(s.words, s.pos), s.input)
  }

  /** The input is exactly the current word and that word is the last one. */
  function Finishes(s: Snapshot): (r: bool)
    ensures r <==> s.words != [] && s.pos == |s.words| - 1 && s.input == s.words[|s.words| - 1]
    ensures s.words == [] ==> !r
  {
    WordAt(s.words, s.pos) == s.input && s.pos == |s.words| - 1
  }

  /** The cached flag agrees with the match test. */
  predicate Synced(s: Snapshot) {
    s.ok == Matches(s)
  }

  /** The session NewTypo builds: the text's words, the first word current, nothing typed. */
  function Initial(text: Bytes): Snapshot {
    Snapshot(Fields(text), 0, [], true)
  }

  /** Typo.GetRune: append the rune's UTF-8 bytes, then refresh the match flag. */
  function AfterGetRune(s: Snapshot, r: Rune): Snapshot {
    var t := s.(input := s.input + EncodeRune(r));
    t.(ok := Matches(t))
  }

  /** Typo.BackSpace: drop the last byte, if any, then refresh the match flag. */
  function AfterBackSpace(s: Snapshot): Snapshot {
    var t := if s.input != [] then s.(input := s.input[..|s.input| - 1]) else s;
    t.(ok := Matches(t))
  }

  /** Typo.NextWord: move to the next word and clear the input; the match flag is left as it was. */
  function AfterNextWord(s: Snapshot): Snapshot {
    s.(pos := s.pos + 1, input := [])
  }

  /** The edit a key event makes (Esc aside). */
  function AfterKey(s: Snapshot, key: Key, ch: Rune): Snapshot {
    if key == KeySpace then
      if s.input == WordAt(s.words, s.pos) then AfterNextWord(s) else AfterGetRune(s, ' ' as Rune)
    else if key == KeyBackspace || key == KeyBackspace2 then AfterBackSpace(s)
    else if ch != 0 then AfterGetRune(s, ch)
    else s
  }

  /**
   * One turn of the event loop in Typo.Start: Esc returns at once, an error
   * panics, a key is applied; then the session finishes if the input now
   * completes the last word.
   */
  function AfterEvent(s: Snapshot, ev: Event): (Snapshot, Outcome) {
    match ev
    case KeyEvent(key, ch) =>
      if key == KeyEsc then (s, Cancelled)
      else
        var t := AfterKey(s, key, ch);
        (t, if Finishes(t) then Finished else Continue)
    case ErrorEvent => (s, Aborted)
    case OtherEvent => (s, if Finishes(s) then Finished else Continue)
  }

  // ----- What the edits do -----

  /**
   * GetRune grows the input by exactly the rune's UTF-8 bytes (one to four),
   * so that the runes the input decodes to gain exactly that rune; the
   * passage and its index stay as they were and the flag is in sync.
   */
  lemma GetRuneAppends(s: Snapshot, r: Rune)
    ensures var t := AfterGetRune(s, r);
      && t.input == s.input + EncodeRune(r)
      && |s.input| + 1 <= |t.input| <= |s.input| + 4
      && Decode(t.input) == Decode(s.input) + [Canonical(r)]
      && t.words == s.words && t.pos == s.pos
      && Synced(t)
  {
    DecodeAppendRune(s.input, r);
  }

  /**
   * BackSpace removes exactly the last byte of a non-empty input and leaves
   * an empty one empty; the passage and its index stay as they were and the
   * flag is in sync.
   */
  lemma BackSpaceDropsOneByte(s: Snapshot)
    ensures var t := AfterBackSpace(s);
      && (s.input != [] ==> |t.input| == |s.input| - 1 && s.input == t.input + [s.input[|s.input| - 1]])
      && (s.input == [] ==> t.input == [])
      && t.words == s.words && t.pos == s.pos
      && Synced(t)
  {
    if s.input != [] {
      var n := |s.input| - 1;
      assert s.input == s.input[..n] + [s.input[n]];
    }
  }

  /**
   * After NextWord the input is empty, so it matches the new current word;
   * the flag, which NextWord does not refresh, is right exactly when it was
   * true before.
   */
  lemma NextWordMatches(s: Snapshot)
    ensures var t := AfterNextWord(s);
      && t.input == [] && Matches(t)
      && t.pos == s.pos + 1 && t.words == s.words
      && (Synced(t) <==> s.ok)
  {
  }

  /** NextWord on its own can leave the flag stale: a mismatching input, then an advance. */
  lemma NextWordAloneCanDesync()
    ensures exists s :: Synced(s) && !Synced(AfterNextWord(s))
  {
    var a: Bytes, b: Bytes := [0x61], [0x62];
    var s := Snapshot([a], 0, b, false);
    assert a[..1] == a;
    assert !HasPrefix(a, b);
    assert Synced(s) && !Synced(AfterNextWord(s));
  }

  /** An input that is a proper prefix of the current word never finishes the session. */
  lemma PrefixDoesNotFinish(s: Snapshot)
    requires |s.input| < |WordAt(s.words, s.pos)|
    ensures !Finishes(s)
  {
  }

  // ----- One event -----

  /**
   * Space advances a word exactly when the input equals the current word
   * (clearing the input); otherwise it is typed like any other character.
   */
  lemma SpaceRule(s: Snapshot, ch: Rune)
    ensures var t := AfterEvent(s, KeyEvent(KeySpace, ch)).0;
      && (s.input == WordAt(s.words, s.pos) ==> t.pos == s.pos + 1 && t.input == [])
      && (s.input != WordAt(s.words, s.pos) ==> t.pos == s.pos && t.input == s.input + [0x20])
      && t.words == s.words
  {
  }

  /** Esc returns from the loop at once: nothing changes and the session does not finish. */
  lemma EscCancels(s: Snapshot, ch: Rune)
    ensures AfterEvent(s, KeyEvent(KeyEsc, ch)) == (s, Cancelled)
  {
  }

  /** A key that is neither special nor a character changes nothing. */
  lemma SilentKeyKeepsState(s: Snapshot, key: Key)
    requires key !in {KeyEsc, KeySpace, KeyBackspace, KeyBackspace2}
    ensures AfterEvent(s, KeyEvent(key, 0)).0 == s
  {
  }

  /**
   * Completion is checked after the edit: typing the last character of the
   * last word finishes the session, with no space after it.
   */
  lemma LastCharacterFinishes(s: Snapshot, ch: Rune)
    requires s.words != [] && s.pos == |s.words| - 1
    requires ch != 0 && s.input + EncodeRune(ch) == s.words[s.pos]
    ensures AfterEvent(s, KeyEvent(0, ch)).1 == Finished
  {
  }

  /** Every event leaves the passage alone and the flag in sync. */
  lemma EventKeepsSynced(s: Snapshot, ev: Event)
    requires Synced(s)
    ensures Synced(AfterEvent(s, ev).0) && AfterEvent(s, ev).0.words == s.words
  {
  }

  // ----- A whole session -----

  /** The events of one session applied in order until one of them ends it; the last outcome is returned. */
  function Run(s: Snapshot, evs: seq<Event>): (Snapshot, Outcome)
    decreases |evs|
  {
    if evs == [] then (s, Continue) else
    var (t, o) := AfterEvent(s, evs[0]);
    if o == Continue then Run(t, evs[1..]) else (t, o)
  }

  /** The state of a session still waiting for input. */
  predicate Live(s: Snapshot) {
    Synced(s) && (s.words != [] ==> s.pos < |s.words| && !Finishes(s))
  }

  lemma {:induction false} RunFromLive(s: Snapshot, evs: seq<Event>)
    requires Live(s)
    ensures var (t, o) := Run(s, evs);
      && t.words == s.words && Synced(t)
      && (o == Continue ==> Live(t))
      && (o == Finished <==> Finishes(t) && o != Cancelled && o != Aborted)
    decreases |evs|
  {
    if evs != [] {
      var (t, o) := AfterEvent(s, evs[0]);
      if o == Continue {
        assert s.words != [] ==> t.pos < |t.words| by {
          if s.words != [] && t.pos != s.pos {
            assert s.input == WordAt(s.words, s.pos) && s.pos + 1 < |s.words|;
          }
        }
        RunFromLive(t, evs[1..]);
      }
    }
  }

  /**
   * Whatever keys a user presses in a session over `text`: the flag always
   * agrees with the match test and the words never change; the session
   * finishes only on the last word typed exactly, so a passage without words
   * never finishes; and while it goes on, a passage with words never has its
   * index past the last word.
   */
  lemma SessionInvariant(text: Bytes, evs: seq<Event>)
    ensures var (t, o) := Run(Initial(text), evs);
      && t.words == Fields(text) && Synced(t)
      && (o == Finished ==> t.words != [] && t.pos == |t.words| - 1 && t.input == t.words[t.pos])
      && (Fields(text) == [] ==> o != Finished)
      && (o == Continue && t.words != [] ==> t.pos < |t.words|)
  {
    var s := Initial(text);
    if s.words != [] {
      assert IsWord(s.words[0]);
    }
    RunFromLive(s, evs);
  }

  /** In a passage without words every space is an exact match, so the index keeps growing. */
  lemma EmptyPassageSpaceAdvances(s: Snapshot, ch: Rune)
    requires s.words == [] && s.input == []
    ensures AfterEvent(s, KeyEvent(KeySpace, ch)) == (s.(pos := s.pos + 1), Continue)
  {
  }

  // ----- The objects -----

  class TextArea {
    var rawText: Bytes
    var words: seq<Bytes>
    var currentWordPos: nat

    /** The zero value `TextArea{}`. */
    constructor ()
      ensures rawText == [] && words == [] && currentWordPos == 0
    {
      rawText, words, currentWordPos := [], [], 0;
    }

    /** Keeps the text and its words; the current index is not reset. */
    method SetText(text: Bytes)
      modifies this
      ensures rawText == text && words == Fields(text)
      ensures currentWordPos == old(currentWordPos)
    {
      rawText := text;
      words := Fields(text);
    }

    /** The current word, or "" once the index is past the last word. */
    function CurrentWord(): (w: Bytes)
      reads this
      ensures w == WordAt(words, currentWordPos)
    {
      if currentWordPos < |words| then words[currentWordPos] else []
    }

    /** Moves one word on and returns the new current word, or ("", false) past the end. */
    method NextWord() returns (word: Bytes, more: bool)
      modifies this
      ensures currentWordPos == old(currentWordPos) + 1
      ensures words == old(words) && rawText == old(rawText)
      ensures more <==> currentWordPos < |words|
      ensures word == WordAt(words, currentWordPos)
    {
      currentWordPos := currentWordPos + 1;
      if currentWordPos < |words| {
        return words[currentWordPos], true;
      }
      return [], false;
    }
  }

  class InputArea {
    var CurrentInput: Bytes

    /** The zero value `InputArea{}`. */
    constructor ()
      ensures CurrentInput == []
    {
      CurrentInput := [];
    }
  }

  class Typo {
    const ia: InputArea
    const ta: TextArea
    var ok: bool

    function Model(): Snapshot
      reads this, ia, ta
    {
      Snapshot(ta.words, ta.currentWordPos, ia.CurrentInput, ok)
    }

    /** NewTypo: a fresh passage over `text`, an empty input, the match flag set. */
    constructor (text: Bytes)
      ensures Model() == Initial(text) && ta.rawText == text
      ensures Synced(Model())
      ensures fresh(ia) && fresh(ta)
    {
      var t := new TextArea();
      t.SetText(text);
      var i := new InputArea();
      ta, ia, ok := t, i, true;
    }

    function IsMatch(): (r: bool)
      reads this, ia, ta
      ensures r == Matches(Model())
    {
      HasPrefix(ta.CurrentWord(), ia.CurrentInput)
    }

    function IsFinish(): (r: bool)
      reads this, ia, ta
      ensures r == Finishes(Model())
    {
      ta.CurrentWord() == ia.CurrentInput && ta.currentWordPos == |ta.words| - 1
    }

    /** Appends the rune's UTF-8 bytes to the input and refreshes the match flag. */
    method GetRune(r: Rune)
      modifies this, ia
      ensures Model() == AfterGetRune(old(Model()), r)
      ensures ia.CurrentInput == old(ia.CurrentInput) + EncodeRune(r)
      ensures unchanged(ta)
    {
      ia.CurrentInput := ia.CurrentInput + EncodeRune(r);
      ok := IsMatch();
    }

    /** Drops the input's last byte, if there is one, and refreshes the match flag. */
    method BackSpace()
      modifies this, ia
      ensures Model() == AfterBackSpace(old(Model()))
      ensures unchanged(ta)
    {
      if ia.CurrentInput != [] {
        ia.CurrentInput := ia.CurrentInput[..|ia.CurrentInput| - 1];
      }
      ok := IsMatch();
    }

    /** Advances the passage and clears the input; the match flag is not touched. */
    method NextWord() returns (word: Bytes, more: bool)
      modifies ta, ia
      ensures Model() == AfterNextWord(old(Model()))
      ensures ta.rawText == old(ta.rawText)
      ensures more <==> ta.currentWordPos < |ta.words|
      ensures word == WordAt(ta.words, ta.currentWordPos)
    {
      word, more := ta.NextWord();
      ia.CurrentInput := [];
    }

    /**
     * DrawTextArea without the terminal: where each word of the passage
     * starts and how it is coloured, in a text area whose corner is (x, y)
     * and which is `width` columns wide.
     */
    method DrawTextArea(rw: Rune -> Width, x: int, y: int, width: int) returns (placed: seq<Placed>)
      ensures placed == PlaceAll(Wrap(rw, ta.words, width), x, y, ta.currentWordPos, ok)
    {
      var ns := Widths(rw, ta.words);
      placed := LayOutWords(ns, x, y, width, ta.currentWordPos, ok);
    }

    /** The body of Typo.Start's event loop for one event, without the redraw. */
    method Step(ev: Event) returns (outcome: Outcome)
      modifies this, ia, ta
      ensures (Model(), outcome) == AfterEvent(old(Model()), ev)
      ensures ta.rawText == old(ta.rawText)
    {
      match ev
      case KeyEvent(key, ch) =>
        if key == KeyEsc {
          return Cancelled;
        }
        if key == KeySpace {
          if ia.CurrentInput == ta.CurrentWord() {
            var _, _ := NextWord();
          } else {
            GetRune(' ' as Rune);
          }
        } else if key == KeyBackspace || key == KeyBackspace2 {
          BackSpace();
        } else if ch != 0 {
          GetRune(ch);
        }
        outcome := if IsFinish() then Finished else Continue;
      case ErrorEvent =>
        outcome := Aborted;
      case OtherEvent =>
        outcome := if IsFinish() then Finished else Continue;
    }
  }
}
