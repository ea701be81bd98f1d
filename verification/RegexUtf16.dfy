/**
What the character macros read (native/quickjs/libregexp.c, GET_CHAR .. PREV_CHAR)
against the definition of UTF-16 in section 3.9 of the Unicode Standard: going
through a text forward or backward yields the code points that it encodes.
*/
module RegexUtf16 {
  import opened RegexText

  /** The code units of a code point (table 3-5). */
  function Encode(c: nat): (u: seq<nat>)
    ensures 1 <= |u| <= 2
  {
    if c < 0x1_0000 then [c] else [0xd800 + (c - 0x1_0000) / 0x400, 0xdc00 + (c - 0x1_0000) % 0x400]
  }

  function EncodeAll(cs: seq<nat>): seq<nat> {
    if cs == [] then [] else Encode(cs[0]) + EncodeAll(cs[1..])
  }

  /** Code points, of which no two are the halves of a surrogate pair. */
  ghost predicate Separate(cs: seq<nat>) {
    && (forall k :: 0 <= k < |cs| ==> cs[k] < 0x11_0000)
    && forall k :: 0 < k < |cs| && 0xdc00 <= cs[k] < 0xe000 ==> !(0xd800 <= cs[k - 1] < 0xdc00)
  }

  /** All that GET_CHAR reads from i on. */
  ghost function Chars(t: Text, i: nat): seq<nat>
    requires i <= |t.units|
    decreases |t.units| - i
  {
    if i == |t.units| then [] else [CharAt(t, i)] + Chars(t, Next(t, i))
  }

  /** All that PEEK_PREV_CHAR and PREV_CHAR read before i, first to last. */
  ghost function CharsBack(t: Text, i: nat): seq<nat>
    requires i <= |t.units|
  {
    if i == 0 then [] else CharsBack(t, Prev(t, i)) + [CharBefore(t, i)]
  }

  /** A pair of surrogates stands for the code point that it encodes. */
  lemma PairExact(h: nat, l: nat)
    requires 0xd800 <= h < 0xdc00 && 0xdc00 <= l < 0xe000
    ensures 0x1_0000 <= Pair(h, l) < 0x11_0000 && Encode(Pair(h, l)) == [h, l]
  {}

  lemma EncodedPair(c: nat)
    requires 0x1_0000 <= c < 0x11_0000
    ensures var u := Encode(c);
      |u| == 2 && 0xd800 <= u[0] < 0xdc00 && 0xdc00 <= u[1] < 0xe000 && Pair(u[0], u[1]) == c
  {}

  /** Each character of an encoded text is read back as it was. */
  lemma {:induction false} DecodeFrom(pre: seq<nat>, cs: seq<nat>, multiline: bool)
    requires Separate(cs)
    ensures Chars(Text(pre + EncodeAll(cs), true, multiline), |pre|) == cs
    decreases |cs|
  {
    var t := Text(pre + EncodeAll(cs), true, multiline);
    if cs != [] {
      var c, pre' := cs[0], pre + Encode(cs[0]);
      DecodeOne(pre, cs, multiline);
      assert pre + EncodeAll(cs) == pre' + EncodeAll(cs[1..]);
      DecodeFrom(pre', cs[1..], multiline);
    }
  }

  lemma DecodeOne(pre: seq<nat>, cs: seq<nat>, multiline: bool)
    requires Separate(cs) && cs != []
    ensures var t := Text(pre + EncodeAll(cs), true, multiline);
      |pre| < |t.units| && CharAt(t, |pre|) == cs[0] && Next(t, |pre|) == |pre| + |Encode(cs[0])|
  {
    hide Encode, CharAt, Next;
    var t, n, u, v := Text(pre + EncodeAll(cs), true, multiline), |pre|, Encode(cs[0]), EncodeAll(cs[1..]);
    assert t.units == pre + u + v;
    assert t.units[n..n + |u|] == u;
    if |cs| > 1 {
      assert v == Encode(cs[1]) + EncodeAll(cs[1..][1..]);
      assert t.units[n + |u|] == v[0] == Encode(cs[1])[0];
      FirstUnit(cs[1]);
    }
    ReadBack(t, n, cs[0]);
  }

  lemma FirstUnit(c: nat)
    requires c < 0x11_0000
    ensures 0xdc00 <= Encode(c)[0] < 0xe000 ==> Encode(c)[0] == c
  {
    if c >= 0x1_0000 { EncodedPair(c); }
  }

  /** The units of c at n are read as c, unless c is half of a pair. */
  lemma ReadBack(t: Text, n: nat, c: nat)
    requires t.utf16 && c < 0x11_0000 && n + |Encode(c)| <= |t.units| && t.units[n..n + |Encode(c)|] == Encode(c)
    requires 0xd800 <= c < 0xdc00 && n + |Encode(c)| < |t.units| ==> !(0xdc00 <= t.units[n + |Encode(c)|] < 0xe000)
    ensures CharAt(t, n) == c && Next(t, n) == n + |Encode(c)|
  {
    var u := t.units[n..n + |Encode(c)|];
    assert u[0] == t.units[n];
    if c >= 0x1_0000 {
      EncodedPair(c);
      assert u[1] == t.units[n + 1];
    }
  }

  /** Decoding undoes encoding. */
  lemma DecodeEncode(cs: seq<nat>, multiline: bool)
    requires Separate(cs)
    ensures Chars(Text(EncodeAll(cs), true, multiline), 0) == cs
  {
    DecodeFrom([], cs, multiline);
    assert [] + EncodeAll(cs) == EncodeAll(cs);
  }

  /** Encoding undoes decoding, for any units of 16 bits, well-formed or not. */
  lemma {:induction false} EncodeDecode(t: Text, i: nat)
    requires t.utf16 && i <= |t.units| && forall k :: 0 <= k < |t.units| ==> t.units[k] <= 0xffff
    ensures EncodeAll(Chars(t, i)) == t.units[i..] && Separate(Chars(t, i))
    decreases |t.units| - i
  {
    hide Encode, CharAt, Next, Separate;
    if i < |t.units| {
      var c, j, rest := CharAt(t, i), Next(t, i), Chars(t, Next(t, i));
      EncodeDecode(t, j);
      EncodeOne(t, i);
      assert t.units[i..] == t.units[i..j] + t.units[j..];
      assert Chars(t, i)[1..] == rest;
      SeparateFrom(c, rest);
    }
    SeparateNone();
  }

  lemma SeparateNone()
    ensures Separate([])
  {}

  /** One character, and why it is no half of a pair with the next one. */
  lemma EncodeOne(t: Text, i: nat)
    requires t.utf16 && i < |t.units| && forall k :: 0 <= k < |t.units| ==> t.units[k] <= 0xffff
    ensures CharAt(t, i) < 0x11_0000 && Encode(CharAt(t, i)) == t.units[i..Next(t, i)]
    ensures var j := Next(t, i);
      0xd800 <= CharAt(t, i) < 0xdc00 && j < |t.units| ==> !(0xdc00 <= CharAt(t, j) < 0xe000)
  {
    if PairAt(t, i) { PairExact(t.units[i], t.units[i + 1]); }
  }

  lemma SeparateFrom(c: nat, rest: seq<nat>)
    requires Separate(rest) && c < 0x11_0000
    requires rest != [] && 0xd800 <= c < 0xdc00 ==> !(0xdc00 <= rest[0] < 0xe000)
    ensures Separate([c] + rest)
  {
    var cs := [c] + rest;
    forall k | 0 < k < |cs| && 0xdc00 <= cs[k] < 0xe000 ensures !(0xd800 <= cs[k - 1] < 0xdc00) {
      if k > 1 { assert rest[k - 1] == cs[k] && rest[k - 2] == cs[k - 1]; }
    }
  }

  /** Without the Unicode flag every unit is a character. */
  lemma {:induction false} UnitsAreChars(t: Text, i: nat)
    requires !t.utf16 && i <= |t.units|
    ensures Chars(t, i) == t.units[i..]
    decreases |t.units| - i
  {
    if i < |t.units| { UnitsAreChars(t, i + 1); }
  }

  /** Backward the same characters are read as forward. */
  lemma {:induction false} BothWays(t: Text, i: nat)
    requires i <= |t.units| && Boundary(t, i)
    ensures CharsBack(t, i) + Chars(t, i) == CharsBack(t, |t.units|)
    decreases |t.units| - i
  {
    if i < |t.units| {
      PrevUndoesNext(t, i);
      BothWays(t, Next(t, i));
    }
  }
}
