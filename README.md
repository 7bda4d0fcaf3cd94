# typo: a verified model of the typing session

`typo` is a terminal typing trainer. It shows a passage, reads key presses,
colours the current word green or red depending on whether the input so far
is a prefix of that word, and moves to the next word when a space follows an
exact match. It stops when the last word has been typed exactly. This project
models the core of `main.go` in Dafny:

- **Passage (`TextArea`).** The raw text, its words (`strings.Fields`) and the
  index of the current word, with `SetText`, `CurrentWord` and `NextWord`.
- **Session (`Typo`, with its `InputArea`).** The typed bytes and the cached
  match flag `ok`, with `NewTypo`, `GetRune`, `BackSpace`, `NextWord`,
  `IsMatch` and `IsFinish`.
- **Key dispatch.** One turn of the event loop in `Typo.Start`, as
  `Typo.Step`, which returns `Continue`, `Finished`, `Cancelled` (Esc) or
  `Aborted` (the panic on a terminal error).
- **Layout arithmetic.** The terminal calls are taken out:
  - the per-rune columns of `DrawText`;
  - the greedy word wrap and highlighting of `DrawTextArea`;
  - the left truncation and cursor column of `DrawInputArea`.

Go strings are byte sequences, and the model keeps them as bytes (`Utf8.Bytes`).
`GetRune` appends the UTF-8 encoding of the rune, as Go's `string(r)` does.
Iterating with `for _, r := range s` decodes one rune at a time, as Go's
`utf8.DecodeRune` does; `DrawText` walks the runes `Utf8.Decode` yields. `BackSpace` and the input-box truncation cut bytes, so
they can split a multi-byte letter, and the model shows this
(`Scenarios.BackSpaceSplitsLetter`).

Display widths come from go-runewidth, which is not part of this model. Every
layout member therefore takes a parameter `rw`, which may be any function from
runes to 0, 1 or 2 columns. `runewidth.StringWidth` is modelled as the sum of
`rw` over the decoded runes (`Layout.StringWidth`). That equation is an
assumption of the model.

Files:

- `utf8.dfy` holds the Go runtime's UTF-8 conversions.
- `strings.dfy` holds `strings.Fields` and `strings.HasPrefix`.
- `layout.dfy` holds the position arithmetic.
- `typing.dfy` holds the session: pure functions over a `Snapshot` value say
  what each operation does. The classes `TextArea`, `InputArea` and `Typo`
  update their fields in place, as the Go code does, and are proved to follow
  those functions.
- `scenarios.dfy` holds whole sessions worked through event by event.

In these places the model follows the code as written, which a reader might
not expect:

- A passage with no words never finishes. `IsFinish` compares the index with
  `len(words)-1`, which is -1 for such a passage. Each space typed while the input
  is empty counts as an exact match of the empty current word, so the index
  keeps growing (`Typing.SessionInvariant`, `Typing.EmptyPassageSpaceAdvances`).
- `SetText` does not reset the index. It is 0 only because `NewTypo` starts
  from a zero value.
- `Typo.NextWord` does not refresh `ok`. The invariant `ok == IsMatch()` still
  holds after every event, because the dispatch advances only on an exact
  match, and then `ok` is already true. Called on its own, `Typo.NextWord` can
  leave the flag stale (`Typing.NextWordAloneCanDesync`).
- Backspace removes one byte, not one character.
- A first word too wide for the text area goes to row 1, not row 0.

## Model

| member | source | states |
|---|---|---|
| `Utf8.EncodeRune` | main.go:73 | `string(r)` gives 1 to 4 bytes. It is one byte exactly for ASCII. It starts with a non-continuation byte and the other bytes are continuation bytes. |
| `Utf8.DecodeRune` | main.go:15 | One `range` step consumes 1 to 4 bytes, never more than are left, and yields a scalar value. An ASCII byte yields itself. A one-byte step on a non-ASCII byte yields U+FFFD. |
| `Utf8.Decode` | main.go:15 | `range` visits at most as many runes as there are bytes, and none only for the empty string. |
| `Utf8.DecodeEncode` | main.go:73 | Decoding `string(r)` gives back r, or U+FFFD for an invalid r, and consumes all of it. |
| `Utf8.DecodeAppendRune` | main.go:73 | Appending `string(r)` to any byte string, even one ending in a partial sequence, adds exactly one rune to what `range` visits. |
| `Strings.Fields` | main.go:30 | Every word Fields returns is non-empty and free of white space. There are no more words than bytes. |
| `Strings.FieldsKeepsEveryOtherByte` | main.go:30 | The words, laid end to end, are exactly the non-space bytes of the text, in order. |
| `Strings.FieldsOfJoin` | main.go:30 | Splitting space-joined words gives the same words back. |
| `Strings.FieldsOfWord` | main.go:30 | A text that is a single word splits into exactly that word. |
| `Strings.FieldsSplitsAtSpace` | main.go:30 | Fields cuts at every white-space byte: the words of a + c + b, with c white space, are the words of a followed by those of b. With `FieldsOfWord` this fixes Fields on every text. |
| `Layout.SumWidths` | main.go:17 | The summed widths of n runes are at most 2n. |
| `Layout.StringWidth` | main.go:114 | StringWidth (assumed to be the sum of rune widths) of n bytes is at most 2n. |
| `Layout.TextCells` | main.go:13-19 | DrawText writes one cell per decoded rune. |
| `Layout.TextCellsAt` | main.go:13-19 | The k-th rune goes to row y, at x plus the widths of the runes before it. |
| `Layout.DrawText` | main.go:13-19 | The `range` loop, run over the runes `Decode` yields, writes exactly `TextCells` of the decoded word. |
| `Layout.Place` | main.go:114-117 | A word moves to column 0 of the next row exactly when xoff + width(word) + 1 > width. Otherwise its row and column are unchanged. |
| `Layout.WrapRule` | main.go:113-124 | Word i starts right after word i-1 and one space, unless that passes the width; then it starts at column 0 one row down. The first word is judged from (0, 0). |
| `Layout.WrapShape` | main.go:113-124 | Rows never decrease and grow by at most 1 per word. A word either fits with its space or starts at column 0. Columns are never negative. |
| `Layout.WideFirstWordSkipsRow` | main.go:99-117 | A first word wider than the area minus one is placed at (0, 1). |
| `Layout.WrapTest` | main.go:114-117 | The loop's in-place wrap test moves (xoff, yoff) exactly as `Place` decides: to (0, yoff+1) when the word and its space would pass the width, else nowhere. |
| `Layout.LayOutWords` | main.go:102-124 | The wrap loop over the words' widths places them exactly as `WrapWidths` and `PlaceAll` describe. Each word gets its offset and its style. |
| `Layout.PlaceAllAt` | main.go:102-124 | Word i is drawn at the corner plus its wrap offset. It is highlighted exactly when i is the current index, green if `ok` and red otherwise. |
| `Layout.DisplayText` | main.go:148-153 | The shown text is a suffix of the input. It is the whole input when the input has at most width-3 bytes; otherwise it has exactly width-2 bytes. |
| `Layout.CursorColumn` | main.go:155 | The cursor is at least x+2 and at most x+2 plus twice the shown length. |
| `Layout.CursorFollowsText` | main.go:154-155 | When text is shown, the cursor column is the column of the last cell DrawText writes for it (from x+2) plus that rune's width. When nothing is shown, it is x+2. |
| `Typing.WordAt` | main.go:33-38 | The current word is `words[pos]` when pos is in range and "" otherwise. It never reads out of range. |
| `Typing.Matches` | main.go:90-92 | The empty input and the exact word both match. A matching input is no longer than the current word. Past the last word only "" matches. |
| `Typing.Finishes` | main.go:94-96 | The session finishes iff there are words, the index is the last one, and the input equals the last word. It never finishes with zero words. |
| `Typing.GetRuneAppends` | main.go:72-75 | GetRune grows the input by exactly the rune's 1 to 4 bytes and adds exactly that rune to the decoded input. The passage and index are unchanged and `ok` is in sync. |
| `Typing.BackSpaceDropsOneByte` | main.go:77-82 | BackSpace removes exactly the last byte of a non-empty input and leaves an empty input empty. The passage and index are unchanged and `ok` is in sync. |
| `Typing.NextWordMatches` | main.go:84-88 | NextWord adds 1 to the index and empties the input, which then matches. The flag is right afterwards iff it was true before. |
| `Typing.NextWordAloneCanDesync` | main.go:84-88 | Some in-sync state has a stale flag after NextWord alone. |
| `Typing.PrefixDoesNotFinish` | main.go:94-96 | An input shorter than the current word never finishes. |
| `Typing.SpaceRule` | main.go:180-185 | Space on an exact match advances and clears the input. Otherwise it appends byte 0x20 and keeps the index. |
| `Typing.EscCancels` | main.go:178-179 | Esc changes nothing and cancels the session without finishing it. |
| `Typing.SilentKeyKeepsState` | main.go:188-191 | A non-special key with `Ch == 0` changes nothing. |
| `Typing.LastCharacterFinishes` | main.go:188-199 | Typing the last character of the last word finishes the session without a trailing space, because the check comes after the edit. |
| `Typing.EventKeepsSynced` | main.go:177-199 | Every event keeps `ok == IsMatch()` and leaves the words alone. |
| `Typing.RunFromLive` | main.go:173-202 | From a live state, a run of events keeps the words and the flag invariant. It stays live while it continues, and it ends Finished exactly when the final state finishes. |
| `Typing.SessionInvariant` | main.go:60-69 | From NewTypo, whatever the keys: the flag stays in sync and the words are Fields(text). Finishing means the last word was typed exactly, so a zero-word passage never finishes. While the session goes on, the index never passes the last word. |
| `Typing.EmptyPassageSpaceAdvances` | main.go:40-46 | On a zero-word passage with empty input, space advances the index with no cap, and the session continues. |
| `Typing.TextArea.constructor` | main.go:61 | The zero value: empty text, no words, index 0. |
| `Typing.TextArea.SetText` | main.go:28-31 | Stores the text verbatim and sets the words to Fields(text). The index is unchanged. |
| `Typing.TextArea.CurrentWord` | main.go:33-38 | Agrees with `WordAt` on the object's fields. |
| `Typing.TextArea.NextWord` | main.go:40-46 | Adds exactly 1 to the index and leaves the words and text unchanged. Returns (words[pos], true) iff the new pos is in range, else ("", false). |
| `Typing.InputArea.constructor` | main.go:63 | The zero value: empty input. |
| `Typing.Typo.constructor` | main.go:60-69 | NewTypo: the words of the text, index 0, empty input, `ok` true, in sync. |
| `Typing.Typo.IsMatch` | main.go:90-92 | Agrees with `Matches` on the session's fields. |
| `Typing.Typo.IsFinish` | main.go:94-96 | Agrees with `Finishes` on the session's fields. |
| `Typing.Typo.GetRune` | main.go:72-75 | The input becomes the old input plus `string(r)` and `ok` is refreshed. The passage object is unchanged. |
| `Typing.Typo.BackSpace` | main.go:77-82 | The new state is `AfterBackSpace` of the old one. The passage object is unchanged. |
| `Typing.Typo.NextWord` | main.go:84-88 | The new state is the old one advanced with the input cleared, and `ok` untouched. Returns the passage's new current word and whether one exists. |
| `Typing.Typo.DrawTextArea` | main.go:98-126 | Measures the words of the passage and places them exactly as `Wrap`, with its lemmas, and `PlaceAll` describe, highlighting the current word by `ok`. |
| `Typing.Typo.Step` | main.go:177-199 | One event changes the session and yields the outcome exactly as `AfterEvent` says. The raw text is unchanged. |
| `Scenarios.CatDogSession` | main.go:173-199 | For "cat dog", the keys c a t space d o g finish on the final g. The input was cleared at the space. |
| `Scenarios.MistypedLetter` | main.go:77-92 | On "cat", "ca" matches. Backspace then x gives "cx", which does not match, sets `ok` false and does not finish. |
| `Scenarios.BackSpaceSplitsLetter` | main.go:77-82 | After typing "é" and one backspace, the input keeps the stray byte 0xC3, which decodes to U+FFFD. |

## Left out

- Terminal I/O is not modelled. This covers every termbox call (`SetCell`, `Clear`, `Flush`, `Size`, `SetCursor`, `HideCursor`, `PollEvent`, `Init`, `Close`), the borders of the input box, and `Draw`'s composition of the screen, including its debug lines. The drawing functions are kept only as position arithmetic, and colours are reduced to `Style`.
- The blocking loop of `Typo.Start` is not modelled as a loop. `Typo.Step` is its body. `Typing.Run` is used only to state what holds along a sequence of events.
- The clock (`time.Now`, `time.Since`, the field `dr`) and the WPM formula in `Result` are left out. The formula is floating-point arithmetic over wall-clock time. The results screen that follows it is left out as well.
- The panic on an error event is modelled only as the outcome `Aborted`.
- go-runewidth's width tables are not part of this model; they are the parameter `rw`. `Layout.StringWidth`: equating it with the sum of rune widths is an assumption. Versions of go-runewidth that measure grapheme clusters may differ.
- `Strings.Fields`: it splits only on ASCII white space. Go also splits on the non-ASCII spaces that `unicode.IsSpace` accepts (U+0085, U+00A0, U+1680, U+2000 to U+200A, U+2028, U+2029, U+202F, U+205F, U+3000). For text without those characters, the two agree.
- `Typing.Typo.DrawTextArea`: it returns each word's origin and style, not every cell. The cells of a word follow `Layout.DrawText` from that origin, and the space cell sits right after the word's last cell, at the word's start plus its width; the next word, if it does not wrap, starts one column after that space. It measures all words before the wrap loop (`Layout.LayOutWords`), where Go measures each word inside it; widths are pure, so the placements agree. The unused `height` parameter is dropped.
- `Layout.DisplayText` requires a width of at least 2. Below that, Go's slice panics. The only caller passes 50.
- The unused fields `currentCharPos` and `InputArea.words` are left out.
- The 64-bit wrap-around of `currentWordPos` is not modelled; the index is unbounded.
