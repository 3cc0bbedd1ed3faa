/** The parts of the ZIP format an archive observer relies on, as facts about the bytes
    (PKWARE APPNOTE sections 4.3.7, 4.3.9, 4.3.12 and 4.3.16). */
module ZipFormat {
  import opened Utf8

  const LOCAL_SIGNATURE: nat := 0x04034b50
  const CENTRAL_SIGNATURE: nat := 0x02014b50
  const END_SIGNATURE: nat := 0x06054b50
  const ZIP64_LOCATOR_SIGNATURE: nat := 0x07064b50
  const ZIP64_END_SIGNATURE: nat := 0x06064b50
  const DESCRIPTOR_SIGNATURE: nat := 0x08074b50
  const NO_U16: nat := 0xFFFF
  const NO_U32: nat := 0xFFFFFFFF

  function U16(data: seq<byte>, at: nat): (n: nat)
    requires at + 2 <= |data|
    ensures n <= NO_U16
  {
    data[at] + 0x100 * (data[at + 1] as int)
  }

  function U32(data: seq<byte>, at: nat): (n: nat)
    requires at + 4 <= |data|
    ensures n <= NO_U32
  {
    U16(data, at) + U16(data, at + 2) * 0x10000
  }

  function U64(data: seq<byte>, at: nat): nat
    requires at + 8 <= |data|
  {
    U32(data, at) + U32(data, at + 4) * 0x100000000
  }

  predicate SignatureAt(data: seq<byte>, at: nat, signature: nat) {
    at + 4 <= |data| && U32(data, at) == signature
  }

  /** Whether bit `mask` (a power of two) is set. */
  predicate Bit(flags: nat, mask: nat)
    requires mask > 0
  {
    flags / mask % 2 == 1
  }

  /** Flags that must agree between the local and the central header: 0x0001, 0x0008, 0x0040
      and 0x2000. */
  predicate SameFlags(a: nat, b: nat) {
    && Bit(a, 1) == Bit(b, 1) && Bit(a, 8) == Bit(b, 8)
    && Bit(a, 0x40) == Bit(b, 0x40) && Bit(a, 0x2000) == Bit(b, 0x2000)
  }

  // The end of central directory record

  datatype End = End(offset: nat, start: nat, count: nat)

  /** The record at `p` ends the file and its directory ends where the record begins. */
  predicate Framed(data: seq<byte>, p: nat) {
    EndsFile(data, p) && U32(data, p + 16) + U32(data, p + 12) == p
  }

  /** The record at `p` ends the file. */
  predicate EndsFile(data: seq<byte>, p: nat) {
    p + 22 <= |data| && U32(data, p) == END_SIGNATURE && p + 22 + U16(data, p + 20) == |data|
  }

  /** A ZIP64 end record and locator directly before `end`, framing their own directory. */
  predicate FramedZip64End(data: seq<byte>, end: nat)
    requires end <= |data|
  {
    && end >= 20 + 56 && U32(data, end - 20) == ZIP64_LOCATOR_SIGNATURE
    && (var offset := U64(data, end - 12);
        && offset <= end - 20 - 56
        && U32(data, offset) == ZIP64_END_SIGNATURE && U64(data, offset + 4) == end - 20 - offset - 12
        && U64(data, offset + 48) + U64(data, offset + 40) == offset)
  }

  /** One ordinary volume. */
  predicate Ordinary(data: seq<byte>, p: nat)
    requires p + 22 <= |data|
  {
    && U16(data, p + 4) == 0 && U16(data, p + 6) == 0
    && U16(data, p + 8) == U16(data, p + 10) != NO_U16
  }

  ghost predicate LastSignature(data: seq<byte>, p: nat) {
    && p + 22 <= |data| && SignatureAt(data, p, END_SIGNATURE)
    && forall q :: p < q && q + 22 <= |data| ==> !SignatureAt(data, q, END_SIGNATURE)
  }

  /** The end record of an archive: the last signature of the file, and properly framed. */
  ghost predicate EndAt(data: seq<byte>, end: End) {
    var p := end.offset;
    && LastSignature(data, p) && Framed(data, p) && Ordinary(data, p)
    && end == End(p, U32(data, p + 16), U16(data, p + 10))
  }

  // The central directory

  function VariableSize(data: seq<byte>, p: nat): nat
    requires p + 46 <= |data|
  {
    U16(data, p + 28) + U16(data, p + 30) + U16(data, p + 32)
  }

  predicate RecordAt(data: seq<byte>, p: nat, end: nat)
    requires end <= |data|
  {
    p + 46 <= end && U32(data, p) == CENTRAL_SIGNATURE && VariableSize(data, p) <= end - p - 46
  }

  /** Positions of records that follow one another from `p` to `to` without a gap, inside a
      directory that ends at `end`. */
  ghost predicate Records(data: seq<byte>, p: nat, to: nat, end: nat, records: seq<nat>)
    requires end <= |data|
    decreases |records|
  {
    if records == [] then p == to
    else records[0] == p && RecordAt(data, p, end) && Records(data, p + 46 + VariableSize(data, p), to, end, records[1..])
  }

  /** The records cover the directory exactly. */
  ghost predicate Directory(data: seq<byte>, start: nat, end: nat, records: seq<nat>)
    requires end <= |data|
  {
    Records(data, start, end, end, records)
  }

  lemma {:induction false} RecordsAppend(data: seq<byte>, p: nat, to: nat, end: nat, records: seq<nat>)
    requires end <= |data| && Records(data, p, to, end, records) && RecordAt(data, to, end)
    ensures Records(data, p, to + 46 + VariableSize(data, to), end, records + [to])
    decreases |records|
  {
    if records == [] {
      assert records + [to] == [to] && [to][1..] == [];
    } else {
      RecordsAppend(data, p + 46 + VariableSize(data, p), to, end, records[1..]);
      assert (records + [to])[1..] == records[1..] + [to];
    }
  }

  /** A directory can be read in only one way: a position reached inside it is the next
      record, or its end. */
  lemma {:induction false} RecordsInside(data: seq<byte>, p: nat, to: nat, end: nat, done: seq<nat>, records: seq<nat>)
    requires end <= |data| && Records(data, p, to, end, done) && Directory(data, p, end, records)
    ensures done <= records
    ensures if |done| == |records| then to == end else records[|done|] == to && RecordAt(data, to, end)
    decreases |done|
  {
    if done != [] {
      assert records != [];
      RecordsInside(data, p + 46 + VariableSize(data, p), to, end, done[1..], records[1..]);
      assert done == [done[0]] + done[1..] && records == [records[0]] + records[1..];
    }
  }

  // Entries

  /** What the observer keeps of a central record. */
  datatype Entry = Entry(name: seq<byte>, extra: seq<byte>, flags: nat, compression: nat, crc: nat,
                         compressed: nat, uncompressed: nat, localOffset: nat, creator: nat, attributes: nat)

  function Central(data: seq<byte>, p: nat): Entry
    requires p + 46 <= |data| && p + 46 + VariableSize(data, p) <= |data|
  {
    var n, x := U16(data, p + 28), U16(data, p + 30);
    Entry(data[p + 46..p + 46 + n], data[p + 46 + n..p + 46 + n + x], U16(data, p + 8), U16(data, p + 10), U32(data, p + 16),
          U32(data, p + 20), U32(data, p + 24), U32(data, p + 42), U16(data, p + 4), U32(data, p + 38))
  }

  /** Where the bytes of an entry lie in the local area. */
  datatype Range = Unframed | Range(bodyStart: nat, bodyEnd: nat, end: nat)

  predicate Descriptor(e: Entry) {
    Bit(e.flags, 8)
  }

  /** Sizes and checksum in the local header: exact, or placeholders if a descriptor follows. */
  predicate SizesAgree(data: seq<byte>, e: Entry)
    requires e.localOffset + 30 <= |data|
  {
    var crc, c, u := U32(data, e.localOffset + 14), U32(data, e.localOffset + 18), U32(data, e.localOffset + 22);
    if Descriptor(e) then (crc == 0 || crc == e.crc) && (c == 0 || c == e.compressed) && (u == 0 || u == e.uncompressed)
    else crc == e.crc && c == e.compressed && u == e.uncompressed
  }

  predicate DescriptorAt(data: seq<byte>, e: Entry, at: nat, limit: nat) {
    && at + 12 <= |data| && at + 12 <= limit
    && U32(data, at) == e.crc && U32(data, at + 4) == e.compressed && U32(data, at + 8) == e.uncompressed
  }

  predicate LocalHeaderAgrees(data: seq<byte>, e: Entry, limit: nat) {
    var at := e.localOffset;
    && at + 30 <= |data| && at + 30 <= limit && U32(data, at) == LOCAL_SIGNATURE
    && (var n, x := U16(data, at + 26), U16(data, at + 28);
        && at + 30 + n + x <= limit <= |data|
        && data[at + 30..at + 30 + n] == e.name)
    && U16(data, at + 8) == e.compression && SameFlags(U16(data, at + 6), e.flags)
    && U32(data, at + 18) != NO_U32 && U32(data, at + 22) != NO_U32
    && SizesAgree(data, e)
  }

  /** The local header, body and descriptor of an entry, all before `limit`. */
  function LocalRange(data: seq<byte>, e: Entry, limit: nat): (r: Range)
    ensures r.Range? ==> e.localOffset + 30 <= r.bodyStart <= r.bodyEnd <= r.end <= limit <= |data|
  {
    if !LocalHeaderAgrees(data, e, limit) then Unframed
    else
      var bodyStart := e.localOffset + 30 + U16(data, e.localOffset + 26) + U16(data, e.localOffset + 28);
      if bodyStart + e.compressed > limit then Unframed
      else
        var bodyEnd := bodyStart + e.compressed;
        if !Descriptor(e) then Range(bodyStart, bodyEnd, bodyEnd)
        else if bodyEnd + 12 > limit then Unframed
        else if U32(data, bodyEnd) != DESCRIPTOR_SIGNATURE then
          if DescriptorAt(data, e, bodyEnd, limit) then Range(bodyStart, bodyEnd, bodyEnd + 12) else Unframed
        else if DescriptorAt(data, e, bodyEnd, limit) then Unframed   // unsigned form with the signature as its checksum
        else if DescriptorAt(data, e, bodyEnd + 4, limit) then Range(bodyStart, bodyEnd, bodyEnd + 16)
        else Unframed
  }

  function LocalExtra(data: seq<byte>, e: Entry): seq<byte>
    requires e.localOffset + 30 <= |data|
    requires e.localOffset + 30 + U16(data, e.localOffset + 26) + U16(data, e.localOffset + 28) <= |data|
  {
    var n, x := U16(data, e.localOffset + 26), U16(data, e.localOffset + 28);
    data[e.localOffset + 30 + n..e.localOffset + 30 + n + x]
  }

  /** Whether a chain of framed extra fields reaches a ZIP64 field. */
  predicate HasZip64Extra(extra: seq<byte>)
    decreases |extra|
  {
    |extra| >= 4 &&
    (U16(extra, 0) == 1 || (4 + U16(extra, 2) <= |extra| && HasZip64Extra(extra[4 + U16(extra, 2)..])))
  }

  /** Whether the blocks of an extra field fill it exactly. */
  predicate FramedExtra(extra: seq<byte>)
    decreases |extra|
  {
    extra == [] || (|extra| >= 4 && 4 + U16(extra, 2) <= |extra| && FramedExtra(extra[4 + U16(extra, 2)..]))
  }
}
