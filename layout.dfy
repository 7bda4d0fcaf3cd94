/**
 * The position arithmetic of the renderer, with the terminal calls taken out:
 * where each rune of a string lands (DrawText), where each word of the passage
 * starts under greedy word wrap (DrawTextArea), and which tail of the input the
 * input box shows and where the cursor goes (DrawInputArea).
 *
 * A rune's display width comes from go-runewidth, which is not part of this
 * model: it is a parameter `rw` of every member, any function from runes to
 * 0, 1 or 2 columns.
 */
module Layout {
  import opened Utf8

  type Width = w: int | 0 <= w <= 2

  /** The column counts of a sequence of runes, added up (defined from the back, as a loop accumulates it). */
  function SumWidths(rw: Rune -> Width, rs: seq<Rune>): (n: nat)
    ensures n <= 2 * |rs|
  {
    if rs == [] then 0 else SumWidths(rw, rs[..|rs| - 1]) + rw(rs[|rs| - 1])
  }

  /**
   * runewidth.StringWidth, under the assumption that it is the sum of
   * runewidth.RuneWidth over the runes `range` visits.
   */
  function StringWidth(rw: Rune -> Width, s: Bytes): (n: nat)
    ensures n <= 2 * |s|
  {
    SumWidths(rw, Decode(s))
  }

  /** One terminal cell write: column, row and the rune put there. */
  datatype Cell = Cell(col: int, row: int, ch: Rune)

  /** The cells written for the runes rs from column x of row y (defined from the back, as the loop writes them). */
  function TextCells(rw: Rune -> Width, x: int, y: int, rs: seq<Rune>): (cells: seq<Cell>)
    ensures |cells| == |rs|
  {
    if rs == [] then [] else
    var init := rs[..|rs| - 1];
    TextCells(rw, x, y, init) + [Cell(x + SumWidths(rw, init), y, rs[|rs| - 1])]
  }

  /** The k-th rune goes to row y, at column x plus the widths of the runes before it. */
  lemma {:induction false} TextCellsAt(rw: Rune -> Width, x: int, y: int, rs: seq<Rune>, k: nat)
    requires k < |rs|
    ensures TextCells(rw, x, y, rs)[k] == Cell(x + SumWidths(rw, rs[..k]), y, rs[k])
    decreases |rs|
  {
    var init := rs[..|rs| - 1];
    if k < |rs| - 1 {
      TextCellsAt(rw, x, y, init, k);
      assert init[..k] == rs[..k];
    }
  }

  lemma TextCellsSnoc(rw: Rune -> Width, x: int, y: int, rs: seq<Rune>, r: Rune)
    ensures TextCells(rw, x, y, rs + [r]) == TextCells(rw, x, y, rs) + [Cell(x + SumWidths(rw, rs), y, r)]
    ensures SumWidths(rw, rs + [r]) == SumWidths(rw, rs) + rw(r)
  {
    assert (rs + [r])[..|rs|] == rs;
  }

  /** DrawText: the cells written for `word` starting at column x of row y. */
  method DrawText(rw: Rune -> Width, x: int, y: int, word: Bytes) returns (cells: seq<Cell>)
    ensures cells == TextCells(rw, x, y, Decode(word))
  {
    var runes := Decode(word);
    var xoff := 0;
    cells := [];
    for k := 0 to |runes|
      invariant xoff == SumWidths(rw, runes[..k])
      invariant cells == TextCells(rw, x, y, runes[..k])
    {
      var r := runes[k];
      DrawTextStep(rw, x, y, runes, k);
      cells := cells + [Cell(x + xoff, y, r)];
      xoff := xoff + rw(r);
    }
    assert runes[..|runes|] == runes;
  }

  /** What one turn of DrawText's loop adds: the k-th rune, its cell, and its width. */
  lemma DrawTextStep(rw: Rune -> Width, x: int, y: int, rs: seq<Rune>, k: nat)
    requires k < |rs|
    ensures SumWidths(rw, rs[..k + 1]) == SumWidths(rw, rs[..k]) + rw(rs[k])
    ensures TextCells(rw, x, y, rs[..k + 1]) == TextCells(rw, x, y, rs[..k]) + [Cell(x + SumWidths(rw, rs[..k]), y, rs[k])]
  {
    assert rs[..k + 1] == rs[..k] + [rs[k]];
    TextCellsSnoc(rw, x, y, rs[..k], rs[k]);
  }

  // ----- Greedy word wrap (DrawTextArea) -----

  /** Where a word starts, relative to the text area's corner. */
  datatype Offset = Offset(x: int, y: int)

  /**
   * The wrap decision for one word of display width w when the previous
   * words ended at column xoff of row yoff: if the word and its trailing
   * space would pass `width`, it goes to column 0 of the next row.
   */
  function Place(w: nat, width: int, xoff: int, yoff: int): (o: Offset)
    ensures o.y == yoff || o.y == yoff + 1
    ensures o.y == yoff + 1 <==> xoff + w + 1 > width
    ensures o.x == if o.y == yoff then xoff else 0
  {
    if xoff + w + 1 > width then Offset(0, yoff + 1) else Offset(xoff, yoff)
  }

  /** The display widths of the words. */
  function Widths(rw: Rune -> Width, ws: seq<Bytes>): (ns: seq<nat>)
    ensures |ns| == |ws|
  {
    seq(|ws|, i requires 0 <= i < |ws| => StringWidth(rw, ws[i]))
  }

  /** Word i's entry of Widths is its display width. */
  lemma WidthsAt(rw: Rune -> Width, ws: seq<Bytes>, i: nat)
    requires i < |ws|
    ensures Widths(rw, ws)[i] == StringWidth(rw, ws[i])
  {
  }

  /**
   * Where the next word would go before the wrap test: column 0 of row 0 for
   * the first word, else one space after the end of the previous word.
   */
  function After(os: seq<Offset>, ns: seq<nat>): (a: Offset)
    requires |os| <= |ns|
    ensures os == [] ==> a == Offset(0, 0)
  {
    if os == [] then Offset(0, 0)
    else Offset(os[|os| - 1].x + ns[|os| - 1] + 1, os[|os| - 1].y)
  }

  /** The start offsets of words of display widths ns (defined from the back, as the loop emits them). */
  function WrapWidths(ns: seq<nat>, width: int): (os: seq<Offset>)
    ensures |os| == |ns|
  {
    if ns == [] then [] else
    var init := WrapWidths(ns[..|ns| - 1], width);
    var a := After(init, ns);
    init + [Place(ns[|ns| - 1], width, a.x, a.y)]
  }

  /** The start offsets of all words of a passage in a text area `width` columns wide. */
  function Wrap(rw: Rune -> Width, ws: seq<Bytes>, width: int): (os: seq<Offset>)
    ensures |os| == |ws|
  {
    WrapWidths(Widths(rw, ws), width)
  }

  /** Laying out more words never moves the ones already placed. */
  lemma {:induction false} WrapPrefix(ns: seq<nat>, width: int, k: nat)
    requires k <= |ns|
    ensures WrapWidths(ns, width)[..k] == WrapWidths(ns[..k], width)
    decreases |ns|
  {
    if k < |ns| {
      var n := |ns| - 1;
      WrapPrefix(ns[..n], width, k);
      assert ns[..n][..k] == ns[..k];
      assert WrapWidths(ns, width)[..n] == WrapWidths(ns[..n], width);
    } else {
      assert ns[..k] == ns;
    }
  }

  lemma WrapWidthsAt(ns: seq<nat>, width: int, i: nat)
    requires i < |ns|
    ensures var os := WrapWidths(ns, width);
      os[i] == if i == 0 then Place(ns[0], width, 0, 0)
               else Place(ns[i], width, os[i - 1].x + ns[i - 1] + 1, os[i - 1].y)
  {
    var os := WrapWidths(ns, width);
    WrapPrefix(ns, width, i + 1);
    WrapPrefix(ns, width, i);
    var pre := ns[..i + 1];
    assert pre[..i] == ns[..i];
    assert os[..i + 1][i] == os[i];
    if i > 0 {
      assert os[..i][i - 1] == os[i - 1];
    }
  }

  /**
   * The word-wrap rule, word by word: each word goes right after the previous
   * word and one space, unless that would pass `width`; then it goes to
   * column 0 of the next row. The first word is judged against column 0 of row 0.
   */
  lemma WrapRule(rw: Rune -> Width, ws: seq<Bytes>, width: int, i: nat)
    requires i < |ws|
    ensures var os := Wrap(rw, ws, width);
      os[i] == if i == 0 then Place(StringWidth(rw, ws[0]), width, 0, 0)
               else Place(StringWidth(rw, ws[i]), width, os[i - 1].x + StringWidth(rw, ws[i - 1]) + 1, os[i - 1].y)
  {
    var ns := Widths(rw, ws);
    var os := WrapWidths(ns, width);
    assert Wrap(rw, ws, width) == os;
    WrapWidthsAt(ns, width, i);
    WidthsAt(rw, ws, i);
    if i > 0 {
      WidthsAt(rw, ws, i - 1);
      assert os[i] == Place(ns[i], width, os[i - 1].x + ns[i - 1] + 1, os[i - 1].y);
    } else {
      assert os[i] == Place(ns[0], width, 0, 0);
    }
  }

  /**
   * Consequences of the rule: rows never go back and advance by at most one
   * per word; a word either fits with its trailing space before `width` or
   * starts a row; no word starts left of column 0.
   */
  lemma WrapShape(rw: Rune -> Width, ws: seq<Bytes>, width: int, i: nat)
    requires i < |ws|
    ensures var os := Wrap(rw, ws, width);
      && 0 <= os[i].x
      && (os[i].x + StringWidth(rw, ws[i]) + 1 <= width || os[i].x == 0)
      && (i == 0 ==> os[i].y == 0 || os[i].y == 1)
      && (i > 0 ==> os[i].y == os[i - 1].y || os[i].y == os[i - 1].y + 1)
    decreases i
  {
    WrapRule(rw, ws, width, i);
    if i > 0 {
      WrapShape(rw, ws, width, i - 1);
    }
  }

  /**
   * A first word too wide for the area (with its trailing space) is placed on
   * row 1, leaving row 0 empty, because the check does not look at xoff == 0.
   */
  lemma WideFirstWordSkipsRow(rw: Rune -> Width, ws: seq<Bytes>, width: int)
    requires ws != [] && StringWidth(rw, ws[0]) + 1 > width
    ensures Wrap(rw, ws, width)[0] == Offset(0, 1)
  {
    WrapRule(rw, ws, width, 0);
  }

  // ----- Styles of the passage and of the input box -----

  datatype Color = Green | Red
  /** Default colours, or underlined in a colour (the current word). */
  datatype Style = Plain | Underlined(color: Color)

  /** Green while the input is a prefix of the current word, red otherwise. */
  function MatchColor(ok: bool): Color {
    if ok then Green else Red
  }

  /** One word of the passage as DrawTextArea lays it out. */
  datatype Placed = Placed(col: int, row: int, style: Style)

  /** Only the current word is highlighted: underlined, green or red. */
  function StyleAt(i: nat, pos: nat, ok: bool): Style {
    if i == pos then Underlined(MatchColor(ok)) else Plain
  }

  /** The words at the offsets os from corner (x, y), with their styles (defined from the back, as the loop emits them). */
  function PlaceAll(os: seq<Offset>, x: int, y: int, pos: nat, ok: bool): (ps: seq<Placed>)
    ensures |ps| == |os|
  {
    if os == [] then [] else
    var n := |os| - 1;
    PlaceAll(os[..n], x, y, pos, ok) + [Placed(x + os[n].x, y + os[n].y, StyleAt(n, pos, ok))]
  }

  /**
   * Word i lands at the corner plus its wrap offset, underlined in the match
   * colour exactly when it is the current word.
   */
  lemma {:induction false} PlaceAllAt(os: seq<Offset>, x: int, y: int, pos: nat, ok: bool, i: nat)
    requires i < |os|
    ensures var p := PlaceAll(os, x, y, pos, ok)[i];
      && p.col == x + os[i].x && p.row == y + os[i].y
      && (p.style != Plain <==> i == pos)
      && (i == pos ==> p.style == Underlined(if ok then Green else Red))
    decreases |os|
  {
    var n := |os| - 1;
    if i < n {
      PlaceAllAt(os[..n], x, y, pos, ok, i);
    }
  }

  /**
   * DrawTextArea's loop over words of display widths ns: each word goes one
   * space after the previous one, or to column 0 of the next row when it and
   * its trailing space would pass `width`.
   */
  method LayOutWords(ns: seq<nat>, x: int, y: int, width: int, pos: nat, ok: bool) returns (placed: seq<Placed>)
    ensures placed == PlaceAll(WrapWidths(ns, width), x, y, pos, ok)
  {
    var xoff, yoff := 0, 0;
    placed := [];
    ghost var os: seq<Offset> := [];
    var i := 0;
    while i < |ns|
      invariant LaidOut(ns, width, x, y, pos, ok, i, os, xoff, yoff, placed)
    {
      var w := ns[i];
      ghost var o := Place(w, width, xoff, yoff);
      LayOutStep(ns, width, x, y, pos, ok, i, os, xoff, yoff, placed);
      xoff, yoff := WrapTest(w, width, xoff, yoff);
      placed := placed + [Placed(x + xoff, y + yoff, StyleAt(i, pos, ok))];
      xoff := xoff + w + 1;
      os := os + [o];
      i := i + 1;
    }
    assert ns[..i] == ns;
  }

  /**
   * LayOutWords' loop invariant after i words: os are their offsets, (xoff,
   * yoff) is where the next word would go before the wrap test, and placed
   * holds the first i words with their styles.
   */
  ghost predicate LaidOut(ns: seq<nat>, width: int, x: int, y: int, pos: nat, ok: bool,
                          i: int, os: seq<Offset>, xoff: int, yoff: int, placed: seq<Placed>)
  {
    && 0 <= i <= |ns|
    && |os| == i
    && os == WrapWidths(ns[..i], width)
    && Offset(xoff, yoff) == After(os, ns)
    && placed == PlaceAll(os, x, y, pos, ok)
  }

  /** The wrap test of DrawTextArea's loop on its xoff and yoff, before a word of width w is drawn. */
  method WrapTest(w: nat, width: int, xoff: int, yoff: int) returns (x': int, y': int)
    ensures Offset(x', y') == Place(w, width, xoff, yoff)
  {
    x', y' := xoff, yoff;
    if xoff + w + 1 > width {
      x' := 0;
      y' := yoff + 1;
    }
  }

  /** One turn of LayOutWords' loop keeps its invariant. */
  lemma LayOutStep(ns: seq<nat>, width: int, x: int, y: int, pos: nat, ok: bool,
                   i: int, os: seq<Offset>, xoff: int, yoff: int, placed: seq<Placed>)
    requires LaidOut(ns, width, x, y, pos, ok, i, os, xoff, yoff, placed) && i < |ns|
    ensures var o := Place(ns[i], width, xoff, yoff);
      LaidOut(ns, width, x, y, pos, ok, i + 1, os + [o], o.x + ns[i] + 1, o.y,
              placed + [Placed(x + o.x, y + o.y, StyleAt(i, pos, ok))])
  {
    var o := Place(ns[i], width, xoff, yoff);
    var pre := ns[..i + 1];
    assert pre[..i] == ns[..i];
    assert After(os, pre) == After(os, ns);
    assert WrapWidths(pre, width) == os + [o];
    assert (os + [o])[..i] == os;
  }

  // ----- The input box (DrawInputArea) -----

  /**
   * The part of the input the box shows: all of it while it has at most
   * width-3 bytes, else its last width-2 bytes (cut by bytes, so possibly in
   * the middle of a rune). Go's slice would panic for a width under 2.
   */
  function DisplayText(input: Bytes, width: int): (t: Bytes)
    requires 2 <= width
    ensures |t| <= |input| && t == input[|input| - |t|..]
    ensures |input| <= width - 3 ==> t == input
    ensures |input| > width - 3 ==> |t| == width - 2
  {
    if |input| > width - 3 then input[|input| - width + 2..] else input
  }

  /**
   * Where the input box puts the terminal cursor: after the shown text,
   * counted in display columns. CursorFollowsText ties it to the cells
   * DrawText writes for that text.
   */
  function CursorColumn(rw: Rune -> Width, x: int, input: Bytes, width: int): (c: int)
    requires 2 <= width
    ensures x + 2 <= c <= x + 2 + 2 * |DisplayText(input, width)|
  {
    x + StringWidth(rw, DisplayText(input, width)) + 2
  }

  /**
   * The cursor sits right after the last cell DrawText writes for the shown
   * text from column x+2 of row y: at that cell's column plus its rune's
   * width, or at x+2 itself when nothing is shown.
   */
  lemma CursorFollowsText(rw: Rune -> Width, x: int, y: int, input: Bytes, width: int)
    requires 2 <= width
    ensures var rs := Decode(DisplayText(input, width));
      && (rs == [] ==> CursorColumn(rw, x, input, width) == x + 2)
      && (rs != [] ==> CursorColumn(rw, x, input, width) == TextCells(rw, x + 2, y, rs)[|rs| - 1].col + rw(rs[|rs| - 1]))
  {
    var rs := Decode(DisplayText(input, width));
    if rs != [] {
      TextCellsAt(rw, x + 2, y, rs, |rs| - 1);
    }
  }
}
