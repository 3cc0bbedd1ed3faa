/** Texts written in an encoding: each character has one form, nothing else is read as it, and a
    source that holds a written text yields that text with its line ends normalized. */
module EncodedTexts {
  import opened Utf8
  import opened SourceText
  import opened Accounts
  import opened Cursors

  // One character

  predicate Encodable(e: Encoding, r: Rune) {
    IsXmlChar(r) && (e == Latin1 ==> r < 0x100)
  }

  /** A 16-bit unit in the byte order of the encoding. */
  function CodeBytes(e: Encoding, unit: nat): seq<byte>
    requires unit < 0x10000
  {
    if e == Utf16LE then [unit % 0x100, unit / 0x100] else [unit / 0x100, unit % 0x100]
  }

  /** The bytes of a character; beyond the basic plane UTF-16 takes ten bits in each of two units. */
  function EncodeIn(e: Encoding, r: Rune): (bytes: seq<byte>)
    requires Encodable(e, r)
    ensures bytes != []
  {
    match e
    case Latin1 => [r]
    case Utf8 => EncodeRune(r)
    case _ =>
      if r < 0x10000 then CodeBytes(e, r)
      else CodeBytes(e, 0xD800 + (r - 0x10000) / 0x400) + CodeBytes(e, 0xDC00 + (r - 0x10000) % 0x400)
  }

  lemma CodeUnitBytes(e: Encoding, bytes: seq<byte>, at: nat, unit: nat)
    requires Wide(e) && unit < 0x10000 && at + 2 <= |bytes|
    ensures bytes[at..at + 2] == CodeBytes(e, unit) <==> CodeUnit(e, bytes, at) == unit
  {
    assert bytes[at..at + 2] == [bytes[at], bytes[at + 1]];
  }

  lemma WideReads(e: Encoding, bytes: seq<byte>, at: nat, r: Rune)
    requires Wide(e) && Encodable(e, r) && HoldsAt(bytes, at, EncodeIn(e, r))
    ensures RawAt(e, bytes, at) == Raw(r, |EncodeIn(e, r)|)
  {
    if r < 0x10000 {
      CodeUnitBytes(e, bytes, at, r);
    } else {
      var high, low := 0xD800 + (r - 0x10000) / 0x400, 0xDC00 + (r - 0x10000) % 0x400;
      HoldsPair(bytes, at, CodeBytes(e, high), CodeBytes(e, low));
      CodeUnitBytes(e, bytes, at, high);
      CodeUnitBytes(e, bytes, at + 2, low);
      hide CodeUnit;
      hide CodeBytes;
    }
  }

  /** A character is read where its bytes are, whatever is around them. */
  lemma CharacterReads(e: Encoding, bytes: seq<byte>, at: nat, r: Rune)
    requires Encodable(e, r) && HoldsAt(bytes, at, EncodeIn(e, r))
    ensures RawAt(e, bytes, at) == Raw(r, |EncodeIn(e, r)|)
  {
    if Wide(e) {
      WideReads(e, bytes, at, r);
    } else if e == Utf8 {
      hide EncodeRune;
      hide DecodeRune;
      var n := |EncodeRune(r)|;
      assert bytes[at..] == EncodeRune(r) + bytes[at + n..];
      DecodeEncode(r, bytes[at + n..]);
      NotTheError(r);
    }
  }

  lemma WideIs(e: Encoding, bytes: seq<byte>, at: nat)
    requires Wide(e) && at < |bytes| && RawAt(e, bytes, at).Raw?
    ensures var raw := RawAt(e, bytes, at); HoldsAt(bytes, at, EncodeIn(e, raw.r)) && raw.size == |EncodeIn(e, raw.r)|
  {
    var raw, high := RawAt(e, bytes, at), CodeUnit(e, bytes, at);
    CodeUnitBytes(e, bytes, at, high);
    if raw.size == 4 {
      var low := CodeUnit(e, bytes, at + 2);
      CodeUnitBytes(e, bytes, at + 2, low);
      HoldsPair(bytes, at, CodeBytes(e, high), CodeBytes(e, low));
      hide CodeUnit;
      hide CodeBytes;
      Halves(high, low);
    }
  }

  lemma Halves(high: nat, low: nat)
    requires 0xD800 <= high <= 0xDBFF && 0xDC00 <= low <= 0xDFFF
    ensures var r := 0x10000 + (high - 0xD800) * 0x400 + (low - 0xDC00);
            0xD800 + (r - 0x10000) / 0x400 == high && 0xDC00 + (r - 0x10000) % 0x400 == low
  {
  }

  /** What is read as a character are its bytes. */
  lemma CharacterIs(e: Encoding, bytes: seq<byte>, at: nat)
    requires at <= |bytes| && RawAt(e, bytes, at).Raw?
    ensures var raw := RawAt(e, bytes, at);
            Encodable(e, raw.r) && HoldsAt(bytes, at, EncodeIn(e, raw.r)) && raw.size == |EncodeIn(e, raw.r)|
  {
    var raw := RawAt(e, bytes, at);
    if Wide(e) {
      WideIs(e, bytes, at);
    } else if e == Utf8 {
      hide EncodeRune;
      hide DecodeRune;
      EncodeDecode(bytes[at..]);
      assert bytes[at..][..raw.size] == bytes[at..at + raw.size];
    }
  }

  // Whole texts

  predicate AllEncodable(e: Encoding, runes: seq<Rune>) {
    forall i :: 0 <= i < |runes| ==> Encodable(e, runes[i])
  }

  function EncodeText(e: Encoding, runes: seq<Rune>): seq<byte>
    requires AllEncodable(e, runes)
  {
    if runes == [] then [] else EncodeIn(e, runes[0]) + EncodeText(e, runes[1..])
  }

  /** A written text is clean and decodes to its characters. */
  lemma {:induction false} TextReads(e: Encoding, bytes: seq<byte>, at: nat, runes: seq<Rune>)
    requires AllEncodable(e, runes) && at <= |bytes| && bytes[at..] == EncodeText(e, runes)
    ensures Clean(e, bytes, at) && RawRunes(e, bytes, at) == runes
    decreases |runes|
  {
    hide RawAt;
    hide EncodeIn;
    if runes == [] {
      EndReads(e, bytes, at);
    } else {
      var first := EncodeIn(e, runes[0]);
      assert bytes[at..][..|first|] == first && bytes[at..][|first|..] == EncodeText(e, runes[1..]);
      assert bytes[at..at + |first|] == bytes[at..][..|first|] && bytes[at + |first|..] == bytes[at..][|first|..];
      CharacterReads(e, bytes, at, runes[0]);
      TextReads(e, bytes, at + |first|, runes[1..]);
      assert [runes[0]] + runes[1..] == runes;
    }
  }

  lemma EndReads(e: Encoding, bytes: seq<byte>, at: nat)
    requires at <= |bytes|
    ensures RawAt(e, bytes, at) == End <==> at == |bytes|
  {
  }

  /** A clean text is what its characters are written as: it can be decoded in one way only. */
  lemma {:induction false} TextIs(e: Encoding, bytes: seq<byte>, at: nat)
    requires at <= |bytes| && Clean(e, bytes, at)
    ensures AllEncodable(e, RawRunes(e, bytes, at)) && bytes[at..] == EncodeText(e, RawRunes(e, bytes, at))
    decreases |bytes| - at
  {
    hide EncodeIn;
    hide Encodable;
    hide RawAt;
    var raw := RawAt(e, bytes, at);
    EndReads(e, bytes, at);
    if raw.Raw? {
      CharacterIs(e, bytes, at);
      TextIs(e, bytes, at + raw.size);
      var rest := RawRunes(e, bytes, at + raw.size);
      assert ([raw.r] + rest)[1..] == rest;
      assert bytes[at..] == bytes[at..at + raw.size] + bytes[at + raw.size..];
    }
  }

  // The beginning

  function Signature(e: Encoding): seq<byte>
    requires e != Latin1
  {
    match e
    case Utf8 => [0xEF, 0xBB, 0xBF]
    case Utf16BE => [0xFE, 0xFF]
    case Utf16LE => [0xFF, 0xFE]
  }

  /** The signature is the encoding's own byte order mark. */
  lemma SignatureIsMark(e: Encoding)
    requires e != Latin1
    ensures Signature(e) == EncodeIn(e, 0xFEFF)
  {
  }

  lemma SignatureDetected(e: Encoding, text: seq<byte>)
    requires e != Latin1
    ensures Detect(Signature(e) + text) == Detected(e, true, |Signature(e)|)
  {
    var bytes, n := Signature(e) + text, |Signature(e)|;
    assert bytes[..n] == Signature(e) && bytes[n..] == text;
    assert bytes[0] == Signature(e)[0];
    assert |bytes| >= 3 ==> bytes[..3][0] == bytes[0];
  }

  /** Without a signature the beginning of a declaration decides, and UTF-8 is meant otherwise. */
  lemma DeclarationDetected(e: Encoding, runes: seq<Rune>)
    requires e != Latin1 && AllEncodable(e, [0x3C, 0x3F] + runes)
    ensures Detect(EncodeText(e, [0x3C, 0x3F] + runes)) == Detected(e, false, 0)
  {
    hide EncodeIn;
    hide Detect;
    var all := [0x3C, 0x3F] + runes;
    assert all[1..] == [0x3F] + runes && all[1..][1..] == runes;
    assert EncodeText(e, all) == EncodeIn(e, 0x3C) + (EncodeIn(e, 0x3F) + EncodeText(e, runes));
    assert EncodeText(e, all) == EncodeIn(e, 0x3C) + EncodeIn(e, 0x3F) + EncodeText(e, runes);
    StartDetected(e, EncodeIn(e, 0x3C) + EncodeIn(e, 0x3F), EncodeText(e, runes));
  }

  lemma StartDetected(e: Encoding, start: seq<byte>, rest: seq<byte>)
    requires e != Latin1 && start == EncodeIn(e, 0x3C) + EncodeIn(e, 0x3F)
    ensures Detect(start + rest) == Detected(e, false, 0)
  {
    var bytes := start + rest;
    assert bytes[..|start|] == start && bytes[0] == start[0] && bytes[1] == start[1];
    assert bytes[..2][0] == bytes[0];
    assert |bytes| >= 3 ==> bytes[..3][0] == bytes[0];
    assert |bytes| >= 4 ==> bytes[..4][0] == bytes[0] && bytes[..4][1] == bytes[1];
  }

  // Line ends

  datatype LineEnd = Lf | CrLf | Cr

  datatype Line = Line(text: seq<Rune>, end: LineEnd)

  function EndRunes(end: LineEnd): seq<Rune> {
    match end
    case Lf => [10]
    case CrLf => [13, 10]
    case Cr => [13]
  }

  predicate NoEnds(runes: seq<Rune>) {
    forall i :: 0 <= i < |runes| ==> runes[i] != 13 && runes[i] != 10
  }

  /** Lines and what follows the last of them. */
  function LinesThen(lines: seq<Line>, rest: seq<Rune>): seq<Rune> {
    if lines == [] then rest else lines[0].text + (EndRunes(lines[0].end) + LinesThen(lines[1..], rest))
  }

  /** The same lines, each of them ended by a line feed. */
  function Plain(lines: seq<Line>): seq<Line> {
    seq(|lines|, i requires 0 <= i < |lines| => Line(lines[i].text, Lf))
  }

  /** Lines as they can be told apart: a line feed right behind a carriage return belongs to it. */
  predicate Apart(lines: seq<Line>) {
    && (forall i :: 0 <= i < |lines| ==> NoEnds(lines[i].text))
    && forall i :: 0 <= i < |lines| - 1 ==> !(lines[i].end == Cr && lines[i + 1].text == [] && lines[i + 1].end == Lf)
  }

  lemma {:induction false} NormalizePlain(runes: seq<Rune>, rest: seq<Rune>)
    requires NoEnds(runes)
    ensures Normalize(runes + rest) == runes + Normalize(rest)
    decreases |runes|
  {
    hide Normalize;
    if runes == [] {
      assert runes + rest == rest && runes + Normalize(rest) == Normalize(rest);
    } else {
      NormalizePlain(runes[1..], rest);
      NormalizeCons(runes[0], runes[1..] + rest);
      assert [runes[0]] + (runes[1..] + rest) == runes + rest;
      assert [runes[0]] + (runes[1..] + Normalize(rest)) == runes + Normalize(rest);
    }
  }

  lemma NormalizeEnd(end: LineEnd, rest: seq<Rune>)
    requires end == Cr ==> rest == [] || rest[0] != 10
    ensures Normalize(EndRunes(end) + rest) == [10] + Normalize(rest)
  {
    hide Normalize;
    match end {
      case Lf => NormalizeCons(10, rest);
      case Cr => NormalizeCons(13, rest);
      case CrLf =>
        NormalizeCons(13, [10] + rest);
        assert [13] + ([10] + rest) == [13, 10] + rest && ([10] + rest)[1..] == rest;
    }
  }

  /** Normalizing replaces every line end by a line feed and changes nothing else (section 2.11). */
  lemma {:induction false} LinesNormalize(lines: seq<Line>, rest: seq<Rune>)
    requires Apart(lines) && NoEnds(rest)
    ensures Normalize(LinesThen(lines, rest)) == LinesThen(Plain(lines), rest)
    decreases |lines|
  {
    hide Normalize;
    if lines == [] {
      NormalizePlain(rest, []);
      NormalizeCons(0, []);
      assert rest + [] == rest;
    } else {
      var behind := LinesThen(lines[1..], rest);
      LinesNormalize(lines[1..], rest);
      assert Plain(lines)[1..] == Plain(lines[1..]);
      if lines[0].end == Cr && behind != [] && |lines| > 1 {
        assert lines[1..][0] == lines[1] && NoEnds(lines[1].text);
      }
      NormalizePlain(lines[0].text, EndRunes(lines[0].end) + behind);
      NormalizeEnd(lines[0].end, behind);
    }
  }

  // Reading

  /** A signature and a text written in its encoding yield the normalized text, however the source
      splits them. */
  method ReadWritten(source: ByteSource, account: Account, owner: Owner, e: Encoding, runes: seq<Rune>)
    returns (units: seq<Scanned>, last: Fetch<()>)
    requires e != Latin1 && AllEncodable(e, runes) && source.rest == Signature(e) + EncodeText(e, runes)
    requires source.reliable && account.ample
    modifies source, account
    ensures last == EndOfInput && Runes(units) == Normalize(runes)
  {
    hide Detect;
    hide EncodeText;
    hide Normalize;
    hide RawRunes;
    hide Clean;
    hide Scan;
    ghost var all, skip := source.rest, |Signature(e)|;
    SignatureDetected(e, EncodeText(e, runes));
    assert all[skip..] == EncodeText(e, runes);
    TextReads(e, all, skip, runes);
    units, last := ReadText(source, account, owner);
  }

  /** Behind a declaration of Latin-1 in a text without a signature, the bytes are characters. */
  method ReadLatin1(cursor: Cursor, runes: seq<Rune>) returns (units: seq<Scanned>, last: Fetch<()>)
    requires cursor.Valid() && cursor.initialized && cursor.cached == Nothing && cursor.rawCached == Nothing
    requires cursor.encoding == Utf8 && !cursor.bom && cursor.Undisturbed()
    requires AllEncodable(Latin1, runes) && cursor.position.offset <= |cursor.all|
    requires cursor.all[cursor.position.offset..] == EncodeText(Latin1, runes)
    modifies cursor, cursor.data, cursor.source, cursor.account
    ensures last == EndOfInput && Runes(units) == Normalize(runes)
  {
    hide EncodeText;
    hide Normalize;
    hide RawRunes;
    hide Clean;
    hide Scan;
    hide Detect;
    TextReads(Latin1, cursor.all, cursor.position.offset, runes);
    DecodeThenNormalize(Latin1, cursor.all, cursor.position.offset);
    ScanPlaced(Latin1, cursor.all, cursor.position);
    var verdict := cursor.SelectEncoding(Latin1Charset);
    units, last := cursor.TakeAll();
  }
}
