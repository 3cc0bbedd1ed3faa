/** The text of an XML source as a function of its bytes: decoding, line ends (section 2.11
    of XML 1.0) and coordinates. */
module SourceText {
  import opened Utf8

  const CR: Rune := 13
  const LF: Rune := 10
  const MAX_INT: nat := 0x7FFF_FFFF_FFFF_FFFF

  datatype Encoding = Utf8 | Latin1 | Utf16BE | Utf16LE

  predicate Wide(e: Encoding) {
    e == Utf16BE || e == Utf16LE
  }

  // One character of the bytes

  datatype Raw = End | Bad | Raw(r: Rune, size: nat)

  function CodeUnit(e: Encoding, bytes: seq<byte>, at: nat): nat
    requires at + 2 <= |bytes|
  {
    if e == Utf16LE then bytes[at] + 0x100 * (bytes[at + 1] as int) else 0x100 * (bytes[at] as int) + bytes[at + 1]
  }

  function RawUtf16(e: Encoding, bytes: seq<byte>, at: nat): (raw: Raw)
    requires at < |bytes|
    ensures raw.Raw? ==> 0 < raw.size <= |bytes| - at
  {
    if at + 2 > |bytes| then Bad
    else
      var high := CodeUnit(e, bytes, at);
      if 0xD800 <= high <= 0xDBFF then
        if at + 4 > |bytes| then Bad
        else
          var low := CodeUnit(e, bytes, at + 2);
          if 0xDC00 <= low <= 0xDFFF then Raw(0x10000 + (high - 0xD800) * 0x400 + (low - 0xDC00), 4) else Bad
      else if 0xDC00 <= high <= 0xDFFF then Bad
      else Raw(high, 2)
  }

  function RawUtf8(bytes: seq<byte>, at: nat): (raw: Raw)
    requires at < |bytes|
    ensures raw.Raw? ==> 0 < raw.size <= |bytes| - at
  {
    var d := DecodeRune(bytes[at..]);
    if d == Decoded(RUNE_ERROR, 1) then Bad else Raw(d.r, d.size)
  }

  /** The character at a byte offset, before line ends are normalized. */
  function RawAt(e: Encoding, bytes: seq<byte>, at: nat): (raw: Raw)
    requires at <= |bytes|
    ensures raw.Raw? ==> 0 < raw.size <= |bytes| - at && IsXmlChar(raw.r)
  {
    if at == |bytes| then End
    else
      var raw := if e == Latin1 then Raw(bytes[at], 1) else if e == Utf8 then RawUtf8(bytes, at) else RawUtf16(e, bytes, at);
      if raw.Raw? && !IsXmlChar(raw.r) then Bad else raw
  }

  /** The character after normalization: CR LF and CR are one LF.  An error right after a CR
      is met while looking for its LF. */
  function UnitAt(e: Encoding, bytes: seq<byte>, at: nat): (raw: Raw)
    requires at <= |bytes|
    ensures raw.Raw? ==> 0 < raw.size <= |bytes| - at && IsXmlChar(raw.r) && raw.r != CR
  {
    var first := RawAt(e, bytes, at);
    if !first.Raw? || first.r != CR then first
    else
      match RawAt(e, bytes, at + first.size)
      case End => Raw(LF, first.size)
      case Bad => Bad
      case Raw(r, size) => if r == LF then Raw(LF, first.size + size) else Raw(LF, first.size)
  }

  // Whole texts

  /** The characters from `at` on, up to the first error. */
  function RawRunes(e: Encoding, bytes: seq<byte>, at: nat): seq<Rune>
    requires at <= |bytes|
    decreases |bytes| - at
  {
    var raw := RawAt(e, bytes, at);
    if raw.Raw? then [raw.r] + RawRunes(e, bytes, at + raw.size) else []
  }

  function UnitRunes(e: Encoding, bytes: seq<byte>, at: nat): seq<Rune>
    requires at <= |bytes|
    decreases |bytes| - at
  {
    var unit := UnitAt(e, bytes, at);
    if unit.Raw? then [unit.r] + UnitRunes(e, bytes, at + unit.size) else []
  }

  predicate Clean(e: Encoding, bytes: seq<byte>, at: nat)
    requires at <= |bytes|
    decreases |bytes| - at
  {
    match RawAt(e, bytes, at)
    case End => true
    case Bad => false
    case Raw(_, size) => Clean(e, bytes, at + size)
  }

  /** Section 2.11 on a sequence of characters. */
  function Normalize(runes: seq<Rune>): seq<Rune> {
    if runes == [] then []
    else if runes[0] != CR then [runes[0]] + Normalize(runes[1..])
    else if |runes| > 1 && runes[1] == LF then [LF] + Normalize(runes[2..])
    else [LF] + Normalize(runes[1..])
  }

  /** Before an error, a CR whose successor could not be read is withheld. */
  function Delivered(clean: bool, runes: seq<Rune>): seq<Rune> {
    if !clean && runes != [] && runes[|runes| - 1] == CR then runes[..|runes| - 1] else runes
  }

  lemma DeliveredCons(clean: bool, r: Rune, rest: seq<Rune>)
    ensures rest != [] || clean || r != CR ==> Delivered(clean, [r] + rest) == [r] + Delivered(clean, rest)
    ensures Delivered(clean, []) == [] && Delivered(false, [CR]) == []
  {
  }

  lemma NormalizeCons(r: Rune, x: seq<Rune>)
    ensures Normalize([r] + x) ==
            if r != CR then [r] + Normalize(x)
            else if x != [] && x[0] == LF then [LF] + Normalize(x[1..])
            else [LF] + Normalize(x)
    ensures Normalize([]) == []
  {
    assert ([r] + x)[1..] == x && (x != [] ==> ([r] + x)[2..] == x[1..]);
  }

  lemma CleanUnit(e: Encoding, bytes: seq<byte>, at: nat)
    requires at <= |bytes|
    ensures match UnitAt(e, bytes, at)
            case End => Clean(e, bytes, at)
            case Bad => !Clean(e, bytes, at)
            case Raw(_, size) => Clean(e, bytes, at) == Clean(e, bytes, at + size)
  {
    hide RawAt;
    var first := RawAt(e, bytes, at);
    if first.Raw? {
      var next := RawAt(e, bytes, at + first.size);
      assert Clean(e, bytes, at) == Clean(e, bytes, at + first.size);
    }
  }

  /** Normalizing while decoding is decoding and then normalizing. */
  lemma {:induction false} DecodeThenNormalize(e: Encoding, bytes: seq<byte>, at: nat)
    requires at <= |bytes|
    ensures UnitRunes(e, bytes, at) == Normalize(Delivered(Clean(e, bytes, at), RawRunes(e, bytes, at)))
    decreases |bytes| - at
  {
    hide RawAt;
    hide Normalize;
    hide Delivered;
    var raw := RawAt(e, bytes, at);
    DeliveredEmpty();
    assert [CR] + [] == [CR];
    if raw.Raw? {
      var clean, rest := Clean(e, bytes, at), RawRunes(e, bytes, at + raw.size);
      DecodeThenNormalize(e, bytes, at + raw.size);
      DeliveredCons(clean, raw.r, rest);
      NormalizeCons(raw.r, Delivered(clean, rest));
      var next := RawAt(e, bytes, at + raw.size);
      if raw.r == CR && next.Raw? {
        var rest' := RawRunes(e, bytes, at + raw.size + next.size);
        DeliveredCons(clean, next.r, rest');
        if next.r == LF {
          DecodeThenNormalize(e, bytes, at + raw.size + next.size);
          assert ([LF] + Delivered(clean, rest'))[1..] == Delivered(clean, rest');
        }
      }
    }
  }

  lemma DeliveredEmpty()
    ensures forall clean :: Delivered(clean, []) == []
    ensures Normalize([]) == []
  {
  }

  // Coordinates

  datatype Position = Position(offset: nat, line: nat, column: nat)

  /** One normalized character further; a coordinate that no longer fits drops both for good. */
  function Advance(p: Position, r: Rune, offset: nat): (q: Position)
    ensures q.offset == offset
  {
    if p.line == 0 then Position(offset, 0, 0)
    else if r == LF then if p.line < MAX_INT then Position(offset, p.line + 1, 1) else Position(offset, 0, 0)
    else if p.column < MAX_INT then Position(offset, p.line, p.column + 1)
    else Position(offset, 0, 0)
  }

  function AdvanceAll(p: Position, runes: seq<Rune>): Position {
    if runes == [] then p
    else
      var q := AdvanceAll(p, runes[..|runes| - 1]);
      Advance(q, runes[|runes| - 1], q.offset)
  }

  function Lines(runes: seq<Rune>): nat {
    if runes == [] then 0 else Lines(runes[..|runes| - 1]) + if runes[|runes| - 1] == LF then 1 else 0
  }

  function SinceLine(runes: seq<Rune>): nat {
    if runes == [] || runes[|runes| - 1] == LF then 0 else SinceLine(runes[..|runes| - 1]) + 1
  }

  /** After `k` characters there are more lines or a longer line than a coordinate can show. */
  predicate TooFar(runes: seq<Rune>, k: nat)
    requires k <= |runes|
  {
    1 + Lines(runes[..k]) > MAX_INT || 1 + SinceLine(runes[..k]) > MAX_INT
  }

  ghost predicate Overflows(runes: seq<Rune>) {
    exists k :: 0 <= k <= |runes| && TooFar(runes, k)
  }

  /** Line and column count the characters read; after an overflow both stay zero. */
  lemma {:induction false} CoordinatesCount(offset: nat, runes: seq<Rune>)
    ensures AdvanceAll(Position(offset, 1, 1), runes) ==
            if Overflows(runes) then Position(offset, 0, 0) else Position(offset, 1 + Lines(runes), 1 + SinceLine(runes))
  {
    if runes == [] {
      assert runes[..0] == [] && !TooFar(runes, 0);
    } else {
      var before := runes[..|runes| - 1];
      CoordinatesCount(offset, before);
      assert runes[..|runes|] == runes && before[..|before|] == before;
      assert Overflows(before) || !TooFar(before, |before|);
      OverflowsGrows(runes);
    }
  }

  lemma OverflowsGrows(runes: seq<Rune>)
    requires runes != []
    ensures Overflows(runes) <==> Overflows(runes[..|runes| - 1]) || TooFar(runes, |runes|)
  {
    hide Lines;
    hide SinceLine;
    var before := runes[..|runes| - 1];
    forall k | 0 <= k <= |before|
      ensures TooFar(before, k) == TooFar(runes, k)
    {
      assert before[..k] == runes[..k];
    }
  }

  /** Reading `runes` and arriving at byte `offset`. */
  function Moved(p: Position, runes: seq<Rune>, offset: nat): Position {
    AdvanceAll(p, runes).(offset := offset)
  }

  lemma {:induction false} AdvanceAllOffset(p: Position, runes: seq<Rune>, offset: nat)
    ensures AdvanceAll(p.(offset := offset), runes) == AdvanceAll(p, runes).(offset := offset)
  {
    if runes != [] {
      AdvanceAllOffset(p, runes[..|runes| - 1], offset);
    }
  }

  lemma MovedStep(p: Position, runes: seq<Rune>, r: Rune, middle: nat, offset: nat)
    ensures Advance(Moved(p, runes, middle), r, offset) == Moved(p, runes + [r], offset)
    ensures Moved(p, [], p.offset) == p
  {
    assert (runes + [r])[..|runes + [r]| - 1] == runes;
  }

  lemma {:induction false} AdvanceAllConcat(p: Position, a: seq<Rune>, b: seq<Rune>)
    ensures AdvanceAll(p, a + b) == AdvanceAll(AdvanceAll(p, a), b)
  {
    if b == [] {
      assert a + b == a;
    } else {
      assert (a + b)[..|a + b| - 1] == a + b[..|b| - 1];
      AdvanceAllConcat(p, a, b[..|b| - 1]);
    }
  }

  // Characters with their places

  datatype Scanned = Scanned(r: Rune, start: Position, end: Position)

  function ScannedAt(e: Encoding, bytes: seq<byte>, p: Position): Scanned
    requires p.offset <= |bytes| && UnitAt(e, bytes, p.offset).Raw?
  {
    var unit := UnitAt(e, bytes, p.offset);
    Scanned(unit.r, p, Advance(p, unit.r, p.offset + unit.size))
  }

  /** Everything a source yields from a position on. */
  function Scan(e: Encoding, bytes: seq<byte>, p: Position): seq<Scanned>
    requires p.offset <= |bytes|
    decreases |bytes| - p.offset
  {
    if UnitAt(e, bytes, p.offset).Raw? then
      var u := ScannedAt(e, bytes, p);
      [u] + Scan(e, bytes, u.end)
    else []
  }

  function Runes(units: seq<Scanned>): seq<Rune> {
    seq(|units|, i requires 0 <= i < |units| => units[i].r)
  }

  /** Adjacent spans from `p` on, each position counting the characters before it. */
  ghost predicate Placed(units: seq<Scanned>, p: Position) {
    forall i :: 0 <= i < |units| ==> PlacedAt(units, p, i)
  }

  predicate PlacedAt(units: seq<Scanned>, p: Position, i: nat)
    requires i < |units|
  {
    && units[i].start == Moved(p, Runes(units[..i]), units[i].start.offset)
    && units[i].start.offset == (if i == 0 then p.offset else units[i - 1].end.offset)
    && units[i].start.offset < units[i].end.offset
  }

  lemma {:induction false} ScanPlaced(e: Encoding, bytes: seq<byte>, p: Position)
    requires p.offset <= |bytes|
    ensures Runes(Scan(e, bytes, p)) == UnitRunes(e, bytes, p.offset)
    ensures Placed(Scan(e, bytes, p), p)
    decreases |bytes| - p.offset
  {
    hide UnitAt;
    hide AdvanceAll;
    hide Advance;
    hide Placed;
    if UnitAt(e, bytes, p.offset).Raw? {
      var u := ScannedAt(e, bytes, p);
      ScanPlaced(e, bytes, u.end);
      ScanRunes(u, Scan(e, bytes, u.end));
      PlacedCons(u, Scan(e, bytes, u.end));
    } else {
      PlacedNone(p);
    }
  }

  lemma PlacedNone(p: Position)
    ensures Placed([], p)
  {
  }

  lemma ScanRunes(u: Scanned, rest: seq<Scanned>)
    ensures Runes([u] + rest) == [u.r] + Runes(rest)
  {
  }

  lemma PlacedConsAt(u: Scanned, rest: seq<Scanned>, i: nat)
    requires u.end == Advance(u.start, u.r, u.end.offset)
    requires i < |rest| && PlacedAt(rest, u.end, i)
    ensures PlacedAt([u] + rest, u.start, i + 1)
  {
    hide Advance;
    hide AdvanceAll;
    hide Runes;
    MovedStep(u.start, [], u.r, u.start.offset, u.end.offset);
    assert [] + [u.r] == [u.r];
    assert ([u] + rest)[..i + 1] == [u] + rest[..i];
    ScanRunes(u, rest[..i]);
    AdvanceAllConcat(u.start, [u.r], Runes(rest[..i]));
    AdvanceAllOffset(AdvanceAll(u.start, [u.r]), Runes(rest[..i]), u.end.offset);
  }

  lemma PlacedCons(u: Scanned, rest: seq<Scanned>)
    requires u.start.offset < u.end.offset && u.end == Advance(u.start, u.r, u.end.offset)
    requires Placed(rest, u.end)
    ensures Placed([u] + rest, u.start)
  {
    hide Advance;
    hide AdvanceAll;
    var units := [u] + rest;
    forall i | 0 <= i < |units|
      ensures PlacedAt(units, u.start, i)
    {
      if i == 0 {
        assert Runes(units[..0]) == [];
        MovedStep(u.start, [], u.r, u.start.offset, u.end.offset);
      } else {
        PlacedConsAt(u, rest, i - 1);
      }
    }
  }

  /** Every unit of a text starts where the units before it end, on the line and in the column
      that counting their characters gives. */
  lemma ScanCoordinates(e: Encoding, bytes: seq<byte>, skip: nat, i: nat)
    requires skip <= |bytes| && i < |Scan(e, bytes, Position(skip, 1, 1))|
    ensures var units := Scan(e, bytes, Position(skip, 1, 1));
            var before := Runes(units[..i]);
            && before <= UnitRunes(e, bytes, skip)
            && units[i].start.offset == (if i == 0 then skip else units[i - 1].end.offset)
            && units[i].start.line == (if Overflows(before) then 0 else 1 + Lines(before))
            && units[i].start.column == (if Overflows(before) then 0 else 1 + SinceLine(before))
  {
    hide Scan;
    hide UnitRunes;
    hide Overflows;
    hide Lines;
    hide SinceLine;
    hide AdvanceAll;
    var p := Position(skip, 1, 1);
    var units := Scan(e, bytes, p);
    ScanPlaced(e, bytes, p);
    assert PlacedAt(units, p, i);
    assert Runes(units)[..i] == Runes(units[..i]);
    CoordinatesCount(skip, Runes(units[..i]));
  }

  // The beginning of a source

  datatype Detected = Detected(encoding: Encoding, bom: bool, skip: nat)

  /** Byte order mark, or the first characters of an XML declaration in UTF-16. */
  function Detect(bytes: seq<byte>): (d: Detected)
    ensures d.skip <= |bytes| && d.encoding != Latin1
  {
    if |bytes| >= 3 && bytes[..3] == [0xEF, 0xBB, 0xBF] then Detected(Utf8, true, 3)
    else if |bytes| >= 2 && bytes[..2] == [0xFE, 0xFF] then Detected(Utf16BE, true, 2)
    else if |bytes| >= 2 && bytes[..2] == [0xFF, 0xFE] then Detected(Utf16LE, true, 2)
    else if |bytes| >= 4 && bytes[..4] == [0, 0x3C, 0, 0x3F] then Detected(Utf16BE, false, 0)
    else if |bytes| >= 4 && bytes[..4] == [0x3C, 0, 0x3F, 0] then Detected(Utf16LE, false, 0)
    else Detected(Utf8, false, 0)
  }

  /** The first four bytes decide. */
  lemma DetectPrefix(bytes: seq<byte>)
    requires |bytes| > 4
    ensures Detect(bytes[..4]) == Detect(bytes)
  {
    assert bytes[..4][..3] == bytes[..3] && bytes[..4][..2] == bytes[..2] && bytes[..4][..4] == bytes[..4];
  }
}
