/**
The subject string of a match and the macros that walk over it
(native/quickjs/libregexp.c, GET_CHAR .. PREV_CHAR).

Positions are indices of code units. `utf16` is the mode in which a surrogate
pair is read as one character; without it every unit is a character.
*/
module RegexText {

  datatype Text = Text(units: seq<nat>, utf16: bool, multiline: bool)

  predicate HighSurrogate(c: nat) { 0xd800 <= c < 0xdc00 }

  predicate LowSurrogate(c: nat) { 0xdc00 <= c < 0xe000 }

  /** The code point that a surrogate pair stands for. */
  function Pair(high: nat, low: nat): nat {
    high % 0x400 * 0x400 + low % 0x400 + 0x10000
  }

  /** A pair of surrogates occupies the units i and i+1. */
  predicate PairAt(t: Text, i: nat) {
    t.utf16 && i + 1 < |t.units| && HighSurrogate(t.units[i]) && LowSurrogate(t.units[i + 1])
  }

  /** The character that GET_CHAR and PEEK_CHAR read at i. */
  function CharAt(t: Text, i: nat): nat
    requires i < |t.units|
  {
    if PairAt(t, i) then Pair(t.units[i], t.units[i + 1]) else t.units[i]
  }

  /** Where GET_CHAR leaves the position. */
  function Next(t: Text, i: nat): (j: nat)
    requires i < |t.units|
    ensures i < j <= |t.units|
  {
    if PairAt(t, i) then i + 2 else i + 1
  }

  /** Where PREV_CHAR leaves the position. */
  function Prev(t: Text, i: nat): (j: nat)
    requires 0 < i <= |t.units|
    ensures j < i
  {
    if 2 <= i && PairAt(t, i - 2) then i - 2 else i - 1
  }

  /** The character that PEEK_PREV_CHAR reads before i. */
  function CharBefore(t: Text, i: nat): nat
    requires 0 < i <= |t.units|
  {
    if 2 <= i && PairAt(t, i - 2) then Pair(t.units[i - 2], t.units[i - 1]) else t.units[i - 1]
  }

  /** i is not inside a surrogate pair. */
  predicate Boundary(t: Text, i: nat) {
    i <= |t.units| && !(0 < i && PairAt(t, i - 1))
  }

  /** PREV_CHAR undoes GET_CHAR exactly at the character boundaries. */
  lemma PrevUndoesNext(t: Text, i: nat)
    requires i < |t.units|
    ensures Prev(t, Next(t, i)) == i <==> Boundary(t, i)
    ensures Boundary(t, i) ==> Boundary(t, Next(t, i)) && CharBefore(t, Next(t, i)) == CharAt(t, i)
  {
    assert PairAt(t, i) ==> !PairAt(t, i + 1);
  }

  /** GET_CHAR undoes PREV_CHAR exactly at the character boundaries, and PREV_CHAR always lands on one. */
  lemma NextUndoesPrev(t: Text, i: nat)
    requires 0 < i <= |t.units|
    ensures Next(t, Prev(t, i)) == i <==> Boundary(t, i)
    ensures Boundary(t, Prev(t, i))
  {
    if 2 <= i && PairAt(t, i - 2) {
      assert !PairAt(t, i - 1);
    }
  }

  /** Reading a character forward from a boundary, or backward from anywhere, ends on a boundary. */
  lemma BoundaryKept(t: Text, i: nat)
    requires i <= |t.units|
    ensures i < |t.units| && Boundary(t, i) ==> Boundary(t, Next(t, i))
    ensures 0 < i ==> Boundary(t, Prev(t, i))
  {
    if i < |t.units| { PrevUndoesNext(t, i); }
    if 0 < i { NextUndoesPrev(t, i); }
  }

  predicate LineTerminator(c: nat) { c == 0x0a || c == 0x0d || c == 0x2028 || c == 0x2029 }

  predicate WordChar(c: nat) {
    || 0x30 <= c <= 0x39
    || 0x41 <= c <= 0x5a
    || 0x61 <= c <= 0x7a
    || c == 0x5f
  }

  datatype Assertion = LineStart | LineEnd | WordBoundary | NotWordBoundary

  predicate WordEdge(t: Text, i: nat)
    requires i <= |t.units|
  {
    (0 < i && WordChar(CharBefore(t, i))) != (i < |t.units| && WordChar(CharAt(t, i)))
  }

  predicate Holds(t: Text, a: Assertion, i: nat)
    requires i <= |t.units|
  {
    match a
    case LineStart => i == 0 || (t.multiline && LineTerminator(CharBefore(t, i)))
    case LineEnd => i == |t.units| || (t.multiline && LineTerminator(CharAt(t, i)))
    case WordBoundary => WordEdge(t, i)
    case NotWordBoundary => !WordEdge(t, i)
  }

  /** How often PREV_CHAR can be applied before the start of the text is reached. */
  function CharsBefore(t: Text, i: nat): nat
    requires i <= |t.units|
  {
    if i == 0 then 0 else 1 + CharsBefore(t, Prev(t, i))
  }

  /** PREV_CHAR applied n times. */
  function PrevN(t: Text, i: nat, n: nat): (j: nat)
    requires i <= |t.units|
    ensures j <= i
    decreases n
  {
    if n == 0 || i == 0 then i else PrevN(t, Prev(t, i), n - 1)
  }
}
