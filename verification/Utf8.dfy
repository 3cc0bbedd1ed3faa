/** UTF-8 as the Go runtime decodes it, and the XML character ranges. */
module Utf8 {

  type byte = x: int | 0 <= x < 256
  type Rune = int

  const RUNE_ERROR: Rune := 0xFFFD

  /** XML 1.0 section 2.2, production Char. */
  predicate IsXmlChar(r: Rune) {
    r == 9 || r == 10 || r == 13 || 32 <= r <= 0xD7FF || 0xE000 <= r <= 0xFFFD || 0x10000 <= r <= 0x10FFFF
  }

  predicate IsScalar(r: Rune) {
    0 <= r <= 0xD7FF || 0xE000 <= r <= 0x10FFFF
  }

  function RuneLen(r: Rune): int {
    if r < 0 then -1
    else if r <= 0x7F then 1
    else if r <= 0x7FF then 2
    else if 0xD800 <= r <= 0xDFFF then -1
    else if r <= 0xFFFF then 3
    else if r <= 0x10FFFF then 4
    else -1
  }

  /** Length announced by a lead byte; an impossible lead counts as one byte. */
  function LeadLen(b: byte): nat {
    if 0xC2 <= b <= 0xDF then 2 else if 0xE0 <= b <= 0xEF then 3 else if 0xF0 <= b <= 0xF4 then 4 else 1
  }

  /** The range of the second byte excludes overlong forms and surrogates. */
  predicate SecondOk(lead: byte, b: byte) {
    if lead == 0xE0 then 0xA0 <= b <= 0xBF
    else if lead == 0xED then 0x80 <= b <= 0x9F
    else if lead == 0xF0 then 0x90 <= b <= 0xBF
    else if lead == 0xF4 then 0x80 <= b <= 0x8F
    else 0x80 <= b <= 0xBF
  }

  predicate Continuation(b: byte) {
    0x80 <= b <= 0xBF
  }

  /** Appends the six payload bits of a continuation byte. */
  function Join(high: int, b: byte): int {
    high * 0x40 + (b - 0x80)
  }

  datatype Decoded = Decoded(r: Rune, size: nat)

  function DecodeRune(s: seq<byte>): (d: Decoded)
    ensures d.size <= |s| && (s != [] ==> d.size > 0)
    ensures d != Decoded(RUNE_ERROR, 1) && s != [] ==> IsScalar(d.r) && RuneLen(d.r) == d.size
  {
    if s == [] then Decoded(RUNE_ERROR, 0)
    else if s[0] < 0x80 then Decoded(s[0], 1)
    else
      var n := LeadLen(s[0]);
      if n == 1 || |s| < n || !SecondOk(s[0], s[1]) then Decoded(RUNE_ERROR, 1)
      else if n == 2 then Decoded(Join(s[0] - 0xC0, s[1]), 2)
      else if !Continuation(s[2]) then Decoded(RUNE_ERROR, 1)
      else if n == 3 then Decoded(Join(Join(s[0] - 0xE0, s[1]), s[2]), 3)
      else if !Continuation(s[3]) then Decoded(RUNE_ERROR, 1)
      else Decoded(Join(Join(Join(s[0] - 0xF0, s[1]), s[2]), s[3]), 4)
  }

  /** Whether more bytes could still change the decoding of the first character. */
  predicate FullRune(s: seq<byte>) {
    s != [] &&
    (|s| >= LeadLen(s[0]) || (|s| > 1 && !SecondOk(s[0], s[1])) || (|s| > 2 && !Continuation(s[2])))
  }

  /** Once FullRune holds, the bytes that follow no longer matter. */
  lemma FullRuneDecides(s: seq<byte>, rest: seq<byte>)
    requires FullRune(s)
    ensures DecodeRune(s + rest) == DecodeRune(s)
  {
    assert (s + rest)[0] == s[0];
  }

  /** A value that is not a scalar is written as the replacement character. */
  function EncodeRune(r: Rune): (s: seq<byte>)
    ensures IsScalar(r) ==> |s| == RuneLen(r)
  {
    if !IsScalar(r) then [0xEF, 0xBF, 0xBD]
    else if r <= 0x7F then [r]
    else if r <= 0x7FF then [0xC0 + r / 0x40, Low(r)]
    else if r <= 0xFFFF then [0xE0 + r / 0x1000, Low(r / 0x40), Low(r)]
    else [0xF0 + r / 0x40000, Low(r / 0x1000), Low(r / 0x40), Low(r)]
  }

  function Low(r: nat): byte {
    0x80 + r % 0x40
  }

  lemma JoinLow(r: nat)
    ensures Join(r / 0x40, Low(r)) == r
  {
  }

  lemma DecodeEncode(r: Rune, rest: seq<byte>)
    requires IsScalar(r)
    ensures DecodeRune(EncodeRune(r) + rest) == Decoded(r, |EncodeRune(r)|)
  {
    var e := EncodeRune(r);
    var s := e + rest;
    assert forall i :: 0 <= i < |e| ==> s[i] == e[i];
    JoinLow(r);
    if r > 0x7FF {
      JoinLow(r / 0x40);
      assert r / 0x40 / 0x40 == r / 0x1000;
    }
    if r > 0xFFFF {
      JoinLow(r / 0x1000);
      assert r / 0x1000 / 0x40 == r / 0x40000;
    }
  }

  /** Whatever decodes is what the character is written as, so nothing else stands for it. */
  lemma EncodeDecode(s: seq<byte>)
    requires s != [] && DecodeRune(s) != Decoded(RUNE_ERROR, 1)
    ensures var d := DecodeRune(s); EncodeRune(d.r) == s[..d.size]
  {
    var d := DecodeRune(s);
    if s[0] >= 0x80 {
      var n := LeadLen(s[0]);
      LowJoin(s[0] - (if n == 2 then 0xC0 else if n == 3 then 0xE0 else 0xF0), s[1]);
      if n >= 3 {
        var two := Join(s[0] - (if n == 3 then 0xE0 else 0xF0), s[1]);
        LowJoin(two, s[2]);
        assert Join(two, s[2]) / 0x1000 == two / 0x40;
        if n == 4 {
          LowJoin(Join(two, s[2]), s[3]);
          assert d.r / 0x1000 == two && d.r / 0x40000 == two / 0x40;
        }
      }
    }
  }

  lemma LowJoin(high: nat, b: byte)
    requires Continuation(b)
    ensures Join(high, b) / 0x40 == high && Low(Join(high, b)) == b
  {
  }

  function EncodeAll(runes: seq<Rune>): seq<byte> {
    if runes == [] then [] else EncodeAll(runes[..|runes| - 1]) + EncodeRune(runes[|runes| - 1])
  }

  lemma {:induction false} EncodeAscii(runes: seq<Rune>)
    requires forall i :: 0 <= i < |runes| ==> 0 <= runes[i] < 128
    ensures |EncodeAll(runes)| == |runes|
  {
    if runes != [] {
      EncodeAscii(runes[..|runes| - 1]);
    }
  }

  lemma {:induction false} EncodeAllConcat(a: seq<Rune>, b: seq<Rune>)
    ensures EncodeAll(a + b) == EncodeAll(a) + EncodeAll(b)
  {
    hide EncodeRune;
    if b == [] {
      assert a + b == a;
    } else {
      var b' := b[..|b| - 1];
      var last := EncodeRune(b[|b| - 1]);
      EncodeAllConcat(a, b');
      assert (a + b)[..|a + b| - 1] == a + b';
      assert EncodeAll(a + b) == EncodeAll(a + b') + last && EncodeAll(b) == EncodeAll(b') + last;
      assert EncodeAll(a) + EncodeAll(b') + last == EncodeAll(a) + (EncodeAll(b') + last);
    }
  }

  /** The characters of a text, ending at the first one that is not well formed or not an
      XML character. */
  datatype Unit = Char(c: Rune) | Illegal

  function Spelt(runes: seq<Rune>): (units: seq<Unit>)
    ensures |units| == |runes| && forall i :: 0 <= i < |runes| ==> units[i] == Char(runes[i])
  {
    seq(|runes|, i requires 0 <= i < |runes| => Char(runes[i]))
  }

  function Units(text: seq<byte>): (u: seq<Unit>)
    ensures text != [] ==> u != []
    ensures forall i :: 0 <= i < |u| && u[i].Char? ==> IsXmlChar(u[i].c)
  {
    if text == [] then []
    else
      var d := DecodeRune(text);
      if d == Decoded(RUNE_ERROR, 1) || !IsXmlChar(d.r) then [Illegal]
      else [Char(d.r)] + Units(text[d.size..])
  }

  /** Text written by EncodeAll reads back as the same characters. */
  lemma {:induction false} UnitsOfEncoding(runes: seq<Rune>)
    requires forall i :: 0 <= i < |runes| ==> IsXmlChar(runes[i])
    ensures Units(EncodeAll(runes)) == Spelt(runes)
  {
    hide EncodeRune;
    hide DecodeRune;
    hide Units;
    if runes != [] {
      var head, tail := runes[..1], runes[1..];
      assert runes == head + tail && head[..0] == [];
      EncodeAllConcat(head, tail);
      assert EncodeAll(head) == EncodeRune(runes[0]);
      DecodeEncode(runes[0], EncodeAll(tail));
      assert (EncodeRune(runes[0]) + EncodeAll(tail))[|EncodeRune(runes[0])|..] == EncodeAll(tail);
      UnitsOfEncoding(tail);
      UnitsFirst(EncodeRune(runes[0]) + EncodeAll(tail));
      NotTheError(runes[0]);
      assert Spelt(runes) == [Char(runes[0])] + Spelt(tail);
    } else {
      UnitsFirst([]);
    }
  }

  lemma UnitsFirst(text: seq<byte>)
    ensures var d := DecodeRune(text);
            Units(text) ==
            if text == [] then []
            else if d == Decoded(RUNE_ERROR, 1) || !IsXmlChar(d.r) then [Illegal]
            else [Char(d.r)] + Units(text[d.size..])
  {
  }

  /** The replacement character is not mistaken for an error. */
  lemma NotTheError(r: Rune)
    requires IsScalar(r)
    ensures Decoded(r, |EncodeRune(r)|) != Decoded(RUNE_ERROR, 1)
  {
  }

  // Parts of byte sequences

  /** The bytes at a place. */
  ghost predicate HoldsAt(bytes: seq<byte>, at: nat, part: seq<byte>) {
    at + |part| <= |bytes| && bytes[at..at + |part|] == part
  }

  lemma HoldsPair(bytes: seq<byte>, at: nat, a: seq<byte>, b: seq<byte>)
    ensures HoldsAt(bytes, at, a + b) <==> HoldsAt(bytes, at, a) && HoldsAt(bytes, at + |a|, b)
  {
    if at + |a + b| <= |bytes| {
      assert bytes[at..at + |a + b|] == bytes[at..at + |a|] + bytes[at + |a|..at + |a| + |b|];
      if HoldsAt(bytes, at, a + b) {
        assert (a + b)[..|a|] == a && (a + b)[|a|..] == b;
      }
    }
  }
}
