/**
 * The two functions of Go's strings package the session uses: Fields, which
 * cuts the passage into words (the maximal runs of non-white-space bytes, in
 * order), and HasPrefix, the match test.
 */
module Strings {
  import opened Utf8

  /** Go's strings.HasPrefix. */
  predicate HasPrefix(s: Bytes, prefix: Bytes) {
    |prefix| <= |s| && s[..|prefix|] == prefix
  }

  /** The white space strings.Fields recognises in ASCII: '\t', '\n', '\v', '\f', '\r' and ' '. */
  predicate IsSpace(b: Byte) {
    b == 0x20 || 0x09 <= b <= 0x0D
  }

  /** A token Fields can return: non-empty and free of white space. */
  predicate IsWord(w: Bytes) {
    |w| > 0 && forall i :: 0 <= i < |w| ==> !IsSpace(w[i])
  }

  /** The length of the run of non-space bytes at the front of s. */
  function RunLength(s: Bytes): (k: nat)
    ensures k <= |s|
    ensures forall i :: 0 <= i < k ==> !IsSpace(s[i])
    ensures k < |s| ==> IsSpace(s[k])
  {
    if s == [] || IsSpace(s[0]) then 0 else 1 + RunLength(s[1..])
  }

  function Fields(s: Bytes): (ws: seq<Bytes>)
    ensures forall i :: 0 <= i < |ws| ==> IsWord(ws[i])
    ensures |ws| <= |s|
    decreases |s|
  {
    if s == [] then []
    else if IsSpace(s[0]) then Fields(s[1..])
    else
      var k := RunLength(s);
      [s[..k]] + Fields(s[k..])
  }

  /** The words laid end to end. */
  function Concat(ws: seq<Bytes>): Bytes {
    if ws == [] then [] else ws[0] + Concat(ws[1..])
  }

  /** The bytes of s that are not white space, in order. */
  function NonSpace(s: Bytes): Bytes {
    if s == [] then []
    else if IsSpace(s[0]) then NonSpace(s[1..])
    else [s[0]] + NonSpace(s[1..])
  }

  /** The words joined by single spaces, as strings.Join(ws, " ") does. */
  function Join(ws: seq<Bytes>): Bytes {
    if ws == [] then []
    else if |ws| == 1 then ws[0]
    else ws[0] + [0x20] + Join(ws[1..])
  }

  lemma {:induction false} NonSpaceOfWord(w: Bytes)
    requires forall i :: 0 <= i < |w| ==> !IsSpace(w[i])
    ensures NonSpace(w) == w
  {
    if w != [] {
      NonSpaceOfWord(w[1..]);
    }
  }

  lemma {:induction false} NonSpaceAppend(a: Bytes, b: Bytes)
    ensures NonSpace(a + b) == NonSpace(a) + NonSpace(b)
  {
    if a == [] {
      assert a + b == b;
    } else {
      assert (a + b)[1..] == a[1..] + b;
      NonSpaceAppend(a[1..], b);
    }
  }

  /** Fields loses only white space: its words, laid end to end, are the text's other bytes in order. */
  lemma {:induction false} FieldsKeepsEveryOtherByte(s: Bytes)
    ensures Concat(Fields(s)) == NonSpace(s)
    decreases |s|
  {
    if s == [] {
    } else if IsSpace(s[0]) {
      FieldsKeepsEveryOtherByte(s[1..]);
    } else {
      var k := RunLength(s);
      var ws := Fields(s);
      assert ws[1..] == Fields(s[k..]);
      FieldsKeepsEveryOtherByte(s[k..]);
      NonSpaceOfWord(s[..k]);
      assert s == s[..k] + s[k..];
      NonSpaceAppend(s[..k], s[k..]);
    }
  }

  lemma {:induction false} RunLengthOfWord(w: Bytes, rest: Bytes)
    requires IsWord(w)
    requires rest == [] || IsSpace(rest[0])
    ensures RunLength(w + rest) == |w|
    decreases |w|
  {
    var s := w + rest;
    if |w| > 1 {
      assert s[1..] == w[1..] + rest;
      RunLengthOfWord(w[1..], rest);
    } else {
      assert s[1..] == rest;
    }
  }

  /** Splitting words joined by single spaces gives the same words back. */
  lemma {:induction false} FieldsOfJoin(ws: seq<Bytes>)
    requires forall i :: 0 <= i < |ws| ==> IsWord(ws[i])
    ensures Fields(Join(ws)) == ws
  {
    if ws == [] {
    } else if |ws| == 1 {
      RunLengthOfWord(ws[0], []);
      assert ws[0] + [] == ws[0];
      assert ws[0][..|ws[0]|] == ws[0];
      assert Fields(ws[0]) == [ws[0]] + Fields([]);
    } else {
      var w, rest := ws[0], Join(ws[1..]);
      var s := w + ([0x20] + rest);
      assert Join(ws) == s;
      RunLengthOfWord(w, [0x20] + rest);
      assert s[..|w|] == w;
      assert s[|w|..] == [0x20] + rest;
      assert ([0x20] + rest)[1..] == rest;
      FieldsOfJoin(ws[1..]);
    }
  }

  /** A word followed by white space (or nothing) ends where the word ends. */
  lemma {:induction false} RunLengthBeforeSpace(a: Bytes, rest: Bytes)
    requires rest == [] || IsSpace(rest[0])
    ensures RunLength(a + rest) == RunLength(a)
    decreases |a|
  {
    var s := a + rest;
    if a == [] {
      assert s == rest;
    } else if !IsSpace(a[0]) {
      assert s[1..] == a[1..] + rest;
      RunLengthBeforeSpace(a[1..], rest);
    }
  }

  /** A text that is one word splits into just that word. */
  lemma FieldsOfWord(w: Bytes)
    requires IsWord(w)
    ensures Fields(w) == [w]
  {
    FieldsOfJoin([w]);
  }

  /**
   * Fields cuts at every white-space byte and nowhere else: the words of a
   * text with a white-space byte in it are the words before it followed by
   * the words after it. With FieldsOfWord this determines Fields on every text.
   */
  lemma {:induction false} FieldsSplitsAtSpace(a: Bytes, c: Byte, b: Bytes)
    requires IsSpace(c)
    ensures Fields(a + [c] + b) == Fields(a) + Fields(b)
    decreases |a|
  {
    var s := a + [c] + b;
    if a == [] {
      assert s == [c] + b;
      assert s[1..] == b;
    } else if IsSpace(a[0]) {
      assert s[1..] == a[1..] + [c] + b;
      FieldsSplitsAtSpace(a[1..], c, b);
    } else {
      var rest := [c] + b;
      assert s == a + rest;
      RunLengthBeforeSpace(a, rest);
      var k := RunLength(a);
      assert s[..k] == a[..k];
      assert s[k..] == a[k..] + [c] + b;
      FieldsSplitsAtSpace(a[k..], c, b);
      assert Fields(a) == [a[..k]] + Fields(a[k..]);
    }
  }
}
