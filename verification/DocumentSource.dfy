/** From bytes to attribute values: the cursor's characters, taken on whichever path, are what the
    reader of values is given. */
module DocumentSources {
  import opened Utf8
  import opened SourceText
  import opened Accounts
  import opened Cursors
  import EncodedTexts
  import Expansion
  import EntityFrames
  import TokenReaders

  /** The characters of a text from a byte offset on; the place where it is malformed is the last. */
  function Characters(e: Encoding, bytes: seq<byte>, at: nat): seq<Unit>
    requires at <= |bytes|
    decreases |bytes| - at
  {
    match UnitAt(e, bytes, at)
    case End => []
    case Bad => [Illegal]
    case Raw(r, size) => [Char(r)] + Characters(e, bytes, at + size)
  }

  /** They are the decoded and then normalized characters, with the error behind them. */
  lemma {:induction false} CharactersText(e: Encoding, bytes: seq<byte>, at: nat)
    requires at <= |bytes|
    ensures Characters(e, bytes, at) ==
            Spelt(Normalize(Delivered(Clean(e, bytes, at), RawRunes(e, bytes, at)))) + if Clean(e, bytes, at) then [] else [Illegal]
  {
    hide Normalize;
    hide Delivered;
    hide RawRunes;
    hide Clean;
    DecodeThenNormalize(e, bytes, at);
    CharactersUnits(e, bytes, at);
  }

  /** A written text has the characters it was written from, with its line ends normalized. */
  lemma WrittenCharacters(e: Encoding, bytes: seq<byte>, at: nat, runes: seq<Rune>)
    requires EncodedTexts.AllEncodable(e, runes) && at <= |bytes| && bytes[at..] == EncodedTexts.EncodeText(e, runes)
    ensures Characters(e, bytes, at) == Spelt(Normalize(runes))
  {
    hide Characters;
    hide Normalize;
    EncodedTexts.TextReads(e, bytes, at, runes);
    CharactersText(e, bytes, at);
    assert Spelt(Normalize(runes)) + [] == Spelt(Normalize(runes));
  }

  lemma {:induction false} CharactersUnits(e: Encoding, bytes: seq<byte>, at: nat)
    requires at <= |bytes|
    ensures Characters(e, bytes, at) == Spelt(UnitRunes(e, bytes, at)) + if Clean(e, bytes, at) then [] else [Illegal]
    decreases |bytes| - at
  {
    hide UnitAt;
    hide Clean;
    CleanUnit(e, bytes, at);
    var unit := UnitAt(e, bytes, at);
    if unit.Raw? {
      CharactersUnits(e, bytes, at + unit.size);
      var rest := UnitRunes(e, bytes, at + unit.size);
      assert Spelt([unit.r] + rest) == [Char(unit.r)] + Spelt(rest);
    }
  }

  lemma {:induction false} CharactersLegible(e: Encoding, bytes: seq<byte>, at: nat)
    requires at <= |bytes|
    ensures TokenReaders.Legible(Characters(e, bytes, at))
    decreases |bytes| - at
  {
    hide UnitAt;
    var unit := UnitAt(e, bytes, at);
    if unit.Raw? {
      CharactersLegible(e, bytes, at + unit.size);
    }
  }

  /** Plain bytes are characters of their own, however many are taken at once. */
  lemma {:induction false} CharactersSpan(e: Encoding, bytes: seq<byte>, at: nat, k: nat)
    requires !Wide(e) && at + k <= |bytes| && AllPlain(bytes[at..at + k])
    ensures Characters(e, bytes, at) == Spelt(bytes[at..at + k]) + Characters(e, bytes, at + k)
    decreases k
  {
    hide UnitAt;
    if k > 0 {
      assert bytes[at..at + k][0] == bytes[at];
      PlainUnit(e, bytes, at);
      assert bytes[at + 1..at + k] == bytes[at..at + k][1..];
      CharactersSpan(e, bytes, at + 1, k - 1);
      assert Spelt(bytes[at..at + k]) == [Char(bytes[at])] + Spelt(bytes[at + 1..at + k]);
    }
  }

  /** Any mixture of spans and single units gives the characters of the text. */
  method Gather(cursor: Cursor) returns (input: seq<Unit>, ok: bool)
    requires cursor.Valid()
    modifies cursor, cursor.data, cursor.source, cursor.account
    ensures ok ==> input == Characters(old(cursor.Coding()), cursor.all, old(cursor.Here()).offset)
    ensures cursor.Undisturbed() ==> ok
  {
    hide Characters;
    hide Detect;
    input := [];
    ghost var goal := Characters(cursor.Coding(), cursor.all, cursor.Here().offset);
    assert [] + goal == goal;
    while true
      invariant cursor.Valid() && Ahead(cursor, input, goal)
      decreases |cursor.all| - cursor.Here().offset
    {
      var mode: AsciiMode, quote: byte, most: nat, spans: bool := *, *, *, *;
      if spans {
        var span := TakeRun(cursor, mode, quote, most, input, goal);
        if span != [] {
          input := input + span;
          continue;
        }
      }
      var unit, last;
      unit, last, ok := TakeUnit(cursor, input, goal);
      input := input + unit;
      if last || !ok {
        return;
      }
    }
  }

  /** What is ahead of the cursor completes the input. */
  ghost predicate Ahead(cursor: Cursor, input: seq<Unit>, goal: seq<Unit>)
    requires cursor.Valid()
    reads cursor, cursor.data, cursor.source, cursor.account
  {
    cursor.Here().offset <= |cursor.all| && goal == input + Characters(cursor.Coding(), cursor.all, cursor.Here().offset)
  }

  method TakeRun(cursor: Cursor, mode: AsciiMode, quote: byte, most: nat, ghost input: seq<Unit>, ghost goal: seq<Unit>)
    returns (span: seq<Unit>)
    requires cursor.Valid() && Ahead(cursor, input, goal)
    modifies cursor`at, cursor`rawOffset, cursor`position
    ensures cursor.Valid() && Ahead(cursor, input + span, goal)
    ensures cursor.Here().offset == old(cursor.Here()).offset + |span|
  {
    hide Characters;
    hide Detect;
    hide UnitAt;
    hide RawAt;
    var k := cursor.AsciiSpan(mode, quote, most);
    if k == 0 {
      assert input + [] == input;
      return [];
    }
    cursor.BufferedBytes(k);
    var bytes := cursor.data[cursor.at..cursor.at + k];
    span := Spelt(bytes);
    ghost var from := cursor.rawOffset;
    CharactersSpan(cursor.encoding, cursor.all, from, k);
    ghost var after := Characters(cursor.encoding, cursor.all, from + k);
    assert input + (span + after) == input + span + after;
    cursor.ConsumeAscii(k);
  }

  method TakeUnit(cursor: Cursor, ghost input: seq<Unit>, ghost goal: seq<Unit>) returns (unit: seq<Unit>, last: bool, ok: bool)
    requires cursor.Valid() && Ahead(cursor, input, goal)
    modifies cursor, cursor.data, cursor.source, cursor.account
    ensures ok && last ==> input + unit == goal
    ensures ok && !last ==> cursor.Valid() && Ahead(cursor, input + unit, goal) && cursor.Here().offset > old(cursor.Here()).offset
    ensures cursor.Undisturbed() ==> ok
  {
    hide Detect;
    hide UnitAt;
    ghost var from := cursor.Here().offset;
    var u := cursor.Take();
    match u {
      case Got(c) =>
        unit, last, ok := [Char(c.r)], false, true;
        ghost var after := Characters(cursor.encoding, cursor.all, c.end.offset);
        assert input + ([Char(c.r)] + after) == input + unit + after;
      case EndOfInput => unit, last, ok := [], true, true;
      case Malformed => unit, last, ok := [Illegal], true, true;
      case Failed => unit, last, ok := [], false, false;
    }
  }

  /** An attribute literal out of the bytes of a source: for every content and every split into
      reads, and whichever path each character took, the value is the recursive expansion of the
      decoded and normalized text, with the same failures. */
  method ReadLiteral(source: ByteSource, account: Account, owner: Owner, store: Expansion.Store, quote: Rune, normalize: bool)
    returns (out: TokenReaders.Outcome<seq<byte>>)
    requires source.reliable && account.ample && (quote == 0x22 || quote == 0x27)
    modifies source, account
    ensures var all := old(source.rest);
            var d := Detect(all);
            var clean := Clean(d.encoding, all, d.skip);
            var text := Normalize(Delivered(clean, RawRunes(d.encoding, all, d.skip)));
            var mode := Expansion.Mode(normalize, true, true, false, quote);
            var meaning := Expansion.Expand(store, Spelt(text) + (if clean then [] else [Illegal]), mode, {}, 0);
            out == match meaning
                   case Done(value, _) => TokenReaders.Value(EncodeAll(value))
                   case Failed(why) => TokenReaders.Malformed(why)
  {
    hide Characters;
    hide Detect;
    hide Expansion.Expand;
    hide EncodeAll;
    hide Normalize;
    hide Delivered;
    hide RawRunes;
    hide Clean;
    ghost var all := source.rest;
    var cursor := new Cursor(source, account, owner);
    var input, ok := Gather(cursor);
    CharactersLegible(Detect(all).encoding, all, Detect(all).skip);
    CharactersText(Detect(all).encoding, all, Detect(all).skip);
    var reader := new TokenReaders.TokenReader(account, store, 0, input);
    out := reader.ReadValue(quote, 0, normalize, true);
    reader.Close();
  }
}
