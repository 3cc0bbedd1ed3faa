/** Archives as they are written: local headers with their bodies and descriptors, the central
    directory and the end record, field by field in little-endian bytes.  What is written has
    exactly its members as inventory, if both headers of each member agree. */
module WrittenArchives {
  import opened Utf8
  import opened Accounts
  import opened ZipFormat
  import opened HeapSort
  import opened ZipInventory
  import opened ZipArchives
  import ExpandedBodies

  // Numbers

  function Little16(n: nat): (bytes: seq<byte>)
    requires n < 0x10000
    ensures |bytes| == 2
  {
    [n % 0x100, n / 0x100]
  }

  function Little32(n: nat): (bytes: seq<byte>)
    requires n < 0x100000000
    ensures |bytes| == 4
  {
    [n % 0x100, n / 0x100 % 0x100, n / 0x10000 % 0x100, n / 0x1000000]
  }

  lemma Held16(data: seq<byte>, at: nat, n: nat)
    requires n < 0x10000 && at + 2 <= |data|
    ensures HoldsAt(data, at, Little16(n)) <==> U16(data, at) == n
  {
    assert data[at..at + 2] == [data[at], data[at + 1]];
  }

  lemma Held32(data: seq<byte>, at: nat, n: nat)
    requires n < 0x100000000 && at + 4 <= |data|
    ensures HoldsAt(data, at, Little32(n)) <==> U32(data, at) == n
  {
    hide Little32;
    assert data[at..at + 4] == [data[at], data[at + 1], data[at + 2], data[at + 3]];
    FourBytes(data[at], data[at + 1], data[at + 2], data[at + 3], n);
  }

  lemma FourBytes(a: byte, b: byte, c: byte, d: byte, n: nat)
    requires n < 0x100000000
    ensures Little32(n) == [a, b, c, d] <==> a + 0x100 * (b as int) + (c + 0x100 * (d as int)) * 0x10000 == n
  {
    Digits256(a, b, c, d);
    Back256(n);
  }

  lemma Digits256(a: byte, b: byte, c: byte, d: byte)
    ensures var n := a + 0x100 * (b as int) + (c + 0x100 * (d as int)) * 0x10000;
            n % 0x100 == a && n / 0x100 % 0x100 == b && n / 0x10000 % 0x100 == c && n / 0x1000000 == d
  {
  }

  lemma Back256(n: nat)
    requires n < 0x100000000
    ensures n % 0x100 + 0x100 * (n / 0x100 % 0x100) + (n / 0x10000 % 0x100 + 0x100 * (n / 0x1000000)) * 0x10000 == n
  {
  }

  // Members

  /** The general-purpose bits, four of which both headers must share. */
  datatype Flags = Flags(encrypted: bool, deferred: bool, strong: bool, masked: bool, low: nat, middle: nat, high: nat, top: nat)

  predicate FlagsFit(f: Flags) {
    f.low < 4 && f.middle < 4 && f.high < 64 && f.top < 4
  }

  function FlagWord(f: Flags): (word: nat)
    requires FlagsFit(f)
    ensures word < 0x10000
  {
    (if f.encrypted then 1 else 0) + f.low * 2 + (if f.deferred then 8 else 0) + f.middle * 0x10 + (if f.strong then 0x40 else 0)
    + f.high * 0x80 + (if f.masked then 0x2000 else 0) + f.top * 0x4000
  }

  predicate Alike(a: Flags, b: Flags) {
    a.encrypted == b.encrypted && a.deferred == b.deferred && a.strong == b.strong && a.masked == b.masked
  }

  /** A bit of a number is what stands at its place. */
  lemma BitAt1(bit: bool, above: nat)
    ensures Bit((if bit then 1 else 0) + 2 * above, 1) == bit
  {
  }

  lemma BitAt8(below: nat, bit: bool, above: nat)
    requires below < 8
    ensures Bit(below + 8 * ((if bit then 1 else 0) + 2 * above), 8) == bit
  {
  }

  lemma BitAt64(below: nat, bit: bool, above: nat)
    requires below < 0x40
    ensures Bit(below + 0x40 * ((if bit then 1 else 0) + 2 * above), 0x40) == bit
  {
  }

  lemma BitAt8192(below: nat, bit: bool, above: nat)
    requires below < 0x2000
    ensures Bit(below + 0x2000 * ((if bit then 1 else 0) + 2 * above), 0x2000) == bit
  {
  }

  lemma FlagBits(f: Flags)
    requires FlagsFit(f)
    ensures var w := FlagWord(f); Bit(w, 1) == f.encrypted && Bit(w, 8) == f.deferred && Bit(w, 0x40) == f.strong && Bit(w, 0x2000) == f.masked
  {
    hide Bit;
    var e, d, s := if f.encrypted then 1 else 0, if f.deferred then 1 else 0, if f.strong then 1 else 0;
    var m := if f.masked then 1 else 0;
    BitAt1(f.encrypted, f.low + 4 * d + 8 * f.middle + 0x20 * s + 0x40 * f.high + 0x1000 * m + 0x2000 * f.top);
    BitAt8(e + 2 * f.low, f.deferred, f.middle + 4 * s + 8 * f.high + 0x200 * m + 0x400 * f.top);
    BitAt64(e + 2 * f.low + 8 * d + 0x10 * f.middle, f.strong, f.high + 0x40 * m + 0x80 * f.top);
    BitAt8192(e + 2 * f.low + 8 * d + 0x10 * f.middle + 0x40 * s + 0x80 * f.high, f.masked, f.top);
  }

  /** What a local and a central header both say. */
  datatype Header = Header(name: seq<byte>, flags: Flags, compression: nat, crc: nat, compressed: nat, uncompressed: nat)

  predicate HeaderFits(h: Header) {
    && |h.name| < 0x10000 && FlagsFit(h.flags) && h.compression < 0x10000
    && h.crc <= NO_U32 && h.compressed <= NO_U32 && h.uncompressed <= NO_U32
  }

  /** The descriptor behind a body, with its signature or without. */
  datatype Trailer = NoTrailer | Unsigned(crc: nat, compressed: nat, uncompressed: nat) | Signed(crc: nat, compressed: nat, uncompressed: nat)

  predicate TrailerFits(t: Trailer) {
    t.NoTrailer? || (t.crc <= NO_U32 && t.compressed <= NO_U32 && t.uncompressed <= NO_U32)
  }

  function Triple(crc: nat, compressed: nat, uncompressed: nat): (bytes: seq<byte>)
    requires crc <= NO_U32 && compressed <= NO_U32 && uncompressed <= NO_U32
    ensures |bytes| == 12
  {
    Little32(crc) + (Little32(compressed) + Little32(uncompressed))
  }

  function TrailerBytes(t: Trailer): (bytes: seq<byte>)
    requires TrailerFits(t)
    ensures |bytes| == match t case NoTrailer => 0 case Unsigned(_, _, _) => 12 case Signed(_, _, _) => 16
  {
    match t
    case NoTrailer => []
    case Unsigned(crc, compressed, uncompressed) => Triple(crc, compressed, uncompressed)
    case Signed(crc, compressed, uncompressed) => Little32(DESCRIPTOR_SIGNATURE) + Triple(crc, compressed, uncompressed)
  }

  /** Blocks of an extra field, and bytes that hold no further one. */
  datatype Block = Block(tag: nat, content: seq<byte>)
  datatype Extra = Extra(blocks: seq<Block>, ragged: seq<byte>)

  function Word(low: byte, high: byte): (n: nat)
    ensures n < 0x10000
  {
    low as int + 0x100 * high as int
  }

  /** Too short for the length of a block, or shorter than that length. */
  predicate Ragged(bytes: seq<byte>) {
    |bytes| < 4 || |bytes| < 4 + Word(bytes[2], bytes[3])
  }

  /** A block for ZIP64, complete or not. */
  predicate Has64(x: Extra) {
    || (exists i :: 0 <= i < |x.blocks| && x.blocks[i].tag == 1)
    || (|x.ragged| >= 4 && x.ragged[..2] == [1, 0])
  }

  predicate BlocksFit(blocks: seq<Block>) {
    forall i :: 0 <= i < |blocks| ==> blocks[i].tag < 0x10000 && |blocks[i].content| < 0x10000
  }

  function BlocksThen(blocks: seq<Block>, rest: seq<byte>): seq<byte>
    requires BlocksFit(blocks)
  {
    if blocks == [] then rest
    else Little16(blocks[0].tag) + (Little16(|blocks[0].content|) + (blocks[0].content + BlocksThen(blocks[1..], rest)))
  }

  function ExtraBytes(x: Extra): seq<byte>
    requires BlocksFit(x.blocks)
  {
    BlocksThen(x.blocks, x.ragged)
  }

  predicate ExtraFits(x: Extra) {
    BlocksFit(x.blocks) && Ragged(x.ragged) && |ExtraBytes(x)| < 0x10000
  }

  /** The rest of the fields is kept as numbers that nothing depends on. */
  datatype Member = Member(
    local: Header, central: Header, localExtra: Extra, extra: Extra, comment: seq<byte>, body: seq<byte>, trailer: Trailer,
    creator: nat, needed: nat, localNeeded: nat, time: nat, date: nat, disk: nat, internal: nat, attributes: nat)

  /** A member can be laid out: its numbers fit their fields, the body has the size the directory
      says, and there is a descriptor exactly if the directory announces one. */
  predicate Fits(m: Member) {
    && HeaderFits(m.local) && HeaderFits(m.central) && ExtraFits(m.localExtra) && ExtraFits(m.extra)
    && |m.comment| < 0x10000 && TrailerFits(m.trailer) && m.central.compressed == |m.body|
    && m.central.flags.deferred == !m.trailer.NoTrailer?
    && m.creator < 0x10000 && m.needed < 0x10000 && m.localNeeded < 0x10000 && m.time < 0x10000 && m.date < 0x10000
    && m.disk < 0x10000 && m.internal < 0x10000 && m.attributes <= NO_U32
  }

  // Layout

  function LocalFields(m: Member): (bytes: seq<byte>)
    requires Fits(m)
    ensures |bytes| == 30
  {
    var h := m.local;
    Little32(0x04034b50) + (Little16(m.localNeeded) + (Little16(FlagWord(h.flags)) + (Little16(h.compression) + (Little16(m.time) + (Little16(m.date) +
      (Little32(h.crc) + (Little32(h.compressed) + (Little32(h.uncompressed) +
        (Little16(|h.name|) + Little16(|ExtraBytes(m.localExtra)|))))))))))
  }

  function LocalPart(m: Member): (bytes: seq<byte>)
    requires Fits(m)
  {
    LocalFields(m) + (m.local.name + (ExtraBytes(m.localExtra) + (m.body + TrailerBytes(m.trailer))))
  }

  function CentralFields(m: Member, offset: nat): (bytes: seq<byte>)
    requires Fits(m) && offset <= NO_U32
    ensures |bytes| == 46
  {
    var h := m.central;
    Little32(0x02014b50) + (Little16(m.creator) + (Little16(m.needed) + (Little16(FlagWord(h.flags)) + (Little16(h.compression) +
      (Little16(m.time) + (Little16(m.date) + (Little32(h.crc) + (Little32(h.compressed) + (Little32(h.uncompressed) +
        (Little16(|h.name|) + (Little16(|ExtraBytes(m.extra)|) + (Little16(|m.comment|) + (Little16(m.disk) + (Little16(m.internal) +
          (Little32(m.attributes) + Little32(offset))))))))))))))))
  }

  function CentralPart(m: Member, offset: nat): (bytes: seq<byte>)
    requires Fits(m) && offset <= NO_U32
  {
    CentralFields(m, offset) + (m.central.name + (ExtraBytes(m.extra) + m.comment))
  }

  function EndPart(count: nat, size: nat, start: nat, comment: seq<byte>): (bytes: seq<byte>)
    requires count < 0x10000 && size <= NO_U32 && start <= NO_U32 && |comment| < 0x10000
    ensures |bytes| == 22 + |comment|
  {
    Little32(0x06054b50) + (Little16(0) + (Little16(0) + (Little16(count) + (Little16(count) + (Little32(size) + (Little32(start) +
      (Little16(|comment|) + comment)))))))
  }

  // The local side

  /** The fields of a local header where they are. */
  lemma LocalHeld(data: seq<byte>, at: nat, m: Member)
    requires Fits(m) && HoldsAt(data, at, LocalFields(m))
    ensures at + 30 <= |data| && U32(data, at) == 0x04034b50 && U16(data, at + 6) == FlagWord(m.local.flags)
    ensures U16(data, at + 8) == m.local.compression && U32(data, at + 14) == m.local.crc
    ensures U32(data, at + 18) == m.local.compressed && U32(data, at + 22) == m.local.uncompressed
    ensures U16(data, at + 26) == |m.local.name| && U16(data, at + 28) == |ExtraBytes(m.localExtra)|
  {
    hide HoldsAt;
    hide U16;
    hide U32;
    hide Little16;
    hide Little32;
    hide FlagWord;
    hide ExtraBytes;
    HoldsInside(data, at, LocalFields(m));
    var h := m.local;
    var p11 := Little16(|ExtraBytes(m.localExtra)|);
    var p10 := Little16(|h.name|) + p11;
    var p9 := Little32(h.uncompressed) + p10;
    var p8 := Little32(h.compressed) + p9;
    var p7 := Little32(h.crc) + p8;
    var p6 := Little16(m.date) + p7;
    var p5 := Little16(m.time) + p6;
    var p4 := Little16(h.compression) + p5;
    var p3 := Little16(FlagWord(h.flags)) + p4;
    var p2 := Little16(m.localNeeded) + p3;
    HoldsPair(data, at, Little32(0x04034b50), p2);
    HoldsPair(data, at + 4, Little16(m.localNeeded), p3);
    HoldsPair(data, at + 6, Little16(FlagWord(h.flags)), p4);
    HoldsPair(data, at + 8, Little16(h.compression), p5);
    HoldsPair(data, at + 10, Little16(m.time), p6);
    HoldsPair(data, at + 12, Little16(m.date), p7);
    HoldsPair(data, at + 14, Little32(h.crc), p8);
    HoldsPair(data, at + 18, Little32(h.compressed), p9);
    HoldsPair(data, at + 22, Little32(h.uncompressed), p10);
    HoldsPair(data, at + 26, Little16(|h.name|), p11);
    Held32(data, at, 0x04034b50);
    Held16(data, at + 6, FlagWord(h.flags));
    Held16(data, at + 8, h.compression);
    Held32(data, at + 14, h.crc);
    Held32(data, at + 18, h.compressed);
    Held32(data, at + 22, h.uncompressed);
    Held16(data, at + 26, |h.name|);
    Held16(data, at + 28, |ExtraBytes(m.localExtra)|);
  }

  lemma HoldsInside(data: seq<byte>, at: nat, part: seq<byte>)
    requires HoldsAt(data, at, part)
    ensures at + |part| <= |data| && data[at..at + |part|] == part
  {
  }

  // Extra fields

  /** An extra field has a ZIP64 block exactly if one of its blocks is one, and is filled by its blocks
      exactly if nothing follows them. */
  lemma {:induction false} BlocksRead(x: Extra)
    requires BlocksFit(x.blocks) && Ragged(x.ragged)
    ensures HasZip64Extra(ExtraBytes(x)) <==> Has64(x)
    ensures FramedExtra(ExtraBytes(x)) <==> x.ragged == []
    decreases |x.blocks|
  {
    hide Little16;
    var blocks := x.blocks;
    if blocks == [] {
      RaggedRead(x.ragged);
    } else {
      hide U16;
      var behind := Extra(blocks[1..], x.ragged);
      BlockHeld(blocks[0], ExtraBytes(behind));
      BlocksRead(behind);
      Later64(x);
    }
  }

  lemma RaggedRead(bytes: seq<byte>)
    requires Ragged(bytes)
    ensures HasZip64Extra(bytes) <==> |bytes| >= 4 && bytes[..2] == [1, 0]
    ensures FramedExtra(bytes) <==> bytes == []
  {
    if |bytes| >= 4 {
      assert bytes[..2] == [bytes[0], bytes[1]];
    }
  }

  lemma Later64(x: Extra)
    requires x.blocks != []
    ensures Has64(x) <==> x.blocks[0].tag == 1 || Has64(Extra(x.blocks[1..], x.ragged))
  {
    var later := x.blocks[1..];
    if i :| 0 <= i < |later| && later[i].tag == 1 {
      assert x.blocks[i + 1].tag == 1;
    }
    if i :| 0 < i < |x.blocks| && x.blocks[i].tag == 1 {
      assert later[i - 1].tag == 1;
    }
  }

  lemma WordBytes(low: byte, high: byte)
    ensures Little16(Word(low, high)) == [low, high]
  {
  }

  /** One block taken off the front. */
  lemma BlockOff(bytes: seq<byte>) returns (block: Block, behind: seq<byte>)
    requires !Ragged(bytes)
    ensures |behind| < |bytes| && block.tag < 0x10000 && |block.content| < 0x10000
    ensures bytes == Little16(block.tag) + (Little16(|block.content|) + (block.content + behind))
  {
    hide Word;
    hide Little16;
    var n := Word(bytes[2], bytes[3]);
    block, behind := Block(Word(bytes[0], bytes[1]), bytes[4..4 + n]), bytes[4 + n..];
    WordBytes(bytes[0], bytes[1]);
    WordBytes(bytes[2], bytes[3]);
    assert bytes[4..] == block.content + behind;
    assert bytes == [bytes[0], bytes[1]] + ([bytes[2], bytes[3]] + bytes[4..]);
  }

  /** Every extra field is made of blocks. */
  lemma {:induction false} BlocksAre(bytes: seq<byte>) returns (x: Extra)
    ensures BlocksFit(x.blocks) && Ragged(x.ragged) && ExtraBytes(x) == bytes
    decreases |bytes|
  {
    hide Ragged;
    hide Little16;
    if Ragged(bytes) {
      x := Extra([], bytes);
    } else {
      var block, behind := BlockOff(bytes);
      var more := BlocksAre(behind);
      x := Extra([block] + more.blocks, more.ragged);
      assert x.blocks[1..] == more.blocks;
    }
  }

  lemma BlockHeld(block: Block, rest: seq<byte>)
    requires block.tag < 0x10000 && |block.content| < 0x10000
    ensures var all := Little16(block.tag) + (Little16(|block.content|) + (block.content + rest));
            && |all| >= 4 + |block.content| && U16(all, 0) == block.tag && U16(all, 2) == |block.content|
            && all[4 + |block.content|..] == rest
  {
    hide U16;
    hide Little16;
    var all := Little16(block.tag) + (Little16(|block.content|) + (block.content + rest));
    assert all[0..|all|] == all;
    HoldsPair(all, 0, Little16(block.tag), Little16(|block.content|) + (block.content + rest));
    HoldsPair(all, 2, Little16(|block.content|), block.content + rest);
    Held16(all, 0, block.tag);
    Held16(all, 2, |block.content|);
    assert all[4..] == block.content + rest;
  }

  // The central side

  /** What is kept of the central record of a member whose local header is at `offset`. */
  function EntryOf(m: Member, offset: nat): Entry
    requires Fits(m)
  {
    Entry(m.central.name, ExtraBytes(m.extra), FlagWord(m.central.flags), m.central.compression, m.central.crc,
          m.central.compressed, m.central.uncompressed, offset, m.creator, m.attributes)
  }

  /** The fields of a central record where they are. */
  lemma CentralFieldsHeld(data: seq<byte>, at: nat, m: Member, offset: nat)
    requires Fits(m) && offset <= NO_U32 && HoldsAt(data, at, CentralFields(m, offset))
    ensures at + 46 <= |data| && U32(data, at) == 0x02014b50 && U16(data, at + 4) == m.creator
    ensures U16(data, at + 8) == FlagWord(m.central.flags) && U16(data, at + 10) == m.central.compression
    ensures U32(data, at + 16) == m.central.crc && U32(data, at + 20) == m.central.compressed && U32(data, at + 24) == m.central.uncompressed
    ensures U16(data, at + 28) == |m.central.name| && U16(data, at + 30) == |ExtraBytes(m.extra)| && U16(data, at + 32) == |m.comment|
    ensures U32(data, at + 38) == m.attributes && U32(data, at + 42) == offset
  {
    hide HoldsAt;
    hide U16;
    hide U32;
    hide Little16;
    hide Little32;
    hide FlagWord;
    hide ExtraBytes;
    HoldsInside(data, at, CentralFields(m, offset));
    var h := m.central;
    var p17 := Little32(offset);
    var p16 := Little32(m.attributes) + p17;
    var p15 := Little16(m.internal) + p16;
    var p14 := Little16(m.disk) + p15;
    var p13 := Little16(|m.comment|) + p14;
    var p12 := Little16(|ExtraBytes(m.extra)|) + p13;
    var p11 := Little16(|h.name|) + p12;
    var p10 := Little32(h.uncompressed) + p11;
    var p9 := Little32(h.compressed) + p10;
    var p8 := Little32(h.crc) + p9;
    var p7 := Little16(m.date) + p8;
    var p6 := Little16(m.time) + p7;
    var p5 := Little16(h.compression) + p6;
    var p4 := Little16(FlagWord(h.flags)) + p5;
    var p3 := Little16(m.needed) + p4;
    var p2 := Little16(m.creator) + p3;
    HoldsPair(data, at, Little32(0x02014b50), p2);
    HoldsPair(data, at + 4, Little16(m.creator), p3);
    HoldsPair(data, at + 6, Little16(m.needed), p4);
    HoldsPair(data, at + 8, Little16(FlagWord(h.flags)), p5);
    HoldsPair(data, at + 10, Little16(h.compression), p6);
    HoldsPair(data, at + 12, Little16(m.time), p7);
    HoldsPair(data, at + 14, Little16(m.date), p8);
    HoldsPair(data, at + 16, Little32(h.crc), p9);
    HoldsPair(data, at + 20, Little32(h.compressed), p10);
    HoldsPair(data, at + 24, Little32(h.uncompressed), p11);
    HoldsPair(data, at + 28, Little16(|h.name|), p12);
    HoldsPair(data, at + 30, Little16(|ExtraBytes(m.extra)|), p13);
    HoldsPair(data, at + 32, Little16(|m.comment|), p14);
    HoldsPair(data, at + 34, Little16(m.disk), p15);
    HoldsPair(data, at + 36, Little16(m.internal), p16);
    HoldsPair(data, at + 38, Little32(m.attributes), p17);
    Held32(data, at, 0x02014b50);
    Held16(data, at + 4, m.creator);
    Held16(data, at + 8, FlagWord(h.flags));
    Held16(data, at + 10, h.compression);
    Held32(data, at + 16, h.crc);
    Held32(data, at + 20, h.compressed);
    Held32(data, at + 24, h.uncompressed);
    Held16(data, at + 28, |h.name|);
    Held16(data, at + 30, |ExtraBytes(m.extra)|);
    Held16(data, at + 32, |m.comment|);
    Held32(data, at + 38, m.attributes);
    Held32(data, at + 42, offset);
  }

  /** A written central record is read as what it says. */
  lemma CentralReads(data: seq<byte>, at: nat, m: Member, offset: nat)
    requires Fits(m) && offset <= NO_U32 && HoldsAt(data, at, CentralPart(m, offset))
    ensures at + |CentralPart(m, offset)| <= |data| && U32(data, at) == CENTRAL_SIGNATURE
    ensures 46 + VariableSize(data, at) == |CentralPart(m, offset)| && Central(data, at) == EntryOf(m, offset)
  {
    hide U16;
    hide U32;
    hide CentralFields;
    hide ExtraBytes;
    hide FlagWord;
    var name, extra := m.central.name, ExtraBytes(m.extra);
    HoldsPair(data, at, CentralFields(m, offset), name + (extra + m.comment));
    HoldsPair(data, at + 46, name, extra + m.comment);
    HoldsPair(data, at + 46 + |name|, extra, m.comment);
    CentralFieldsHeld(data, at, m, offset);
  }

  // The local side

  /** Both headers say the same, as far as they must; where a descriptor follows, the local one may
      leave out sizes and checksum. */
  predicate Consistent(m: Member) {
    && m.local.name == m.central.name && m.local.compression == m.central.compression && Alike(m.local.flags, m.central.flags)
    && m.local.compressed != NO_U32 && m.local.uncompressed != NO_U32
    && (match m.trailer
        case NoTrailer =>
          m.local.crc == m.central.crc && m.local.compressed == m.central.compressed && m.local.uncompressed == m.central.uncompressed
        case _ =>
          && m.local.crc in {0, m.central.crc} && m.local.compressed in {0, m.central.compressed} && m.local.uncompressed in {0, m.central.uncompressed}
          && m.trailer.crc == m.central.crc && m.trailer.compressed == m.central.compressed && m.trailer.uncompressed == m.central.uncompressed)
    && !Colliding(m)
  }

  /** A descriptor that can be read both with and without its signature. */
  predicate Colliding(m: Member) {
    match m.trailer
    case NoTrailer => false
    case Unsigned(crc, _, _) => crc == 0x08074b50
    case Signed(crc, compressed, _) => m.central.crc == 0x08074b50 && crc == m.central.compressed && compressed == m.central.uncompressed
  }

  /** An unsigned descriptor with the signature for a checksum is read further than it goes. */
  predicate Legible(m: Member) {
    m.trailer.Unsigned? && m.trailer.crc == 0x08074b50 ==>
      m.trailer.crc == m.central.crc && m.trailer.compressed == m.central.compressed && m.trailer.uncompressed == m.central.uncompressed
  }

  lemma TripleHeld(data: seq<byte>, at: nat, crc: nat, compressed: nat, uncompressed: nat)
    requires crc <= NO_U32 && compressed <= NO_U32 && uncompressed <= NO_U32 && HoldsAt(data, at, Triple(crc, compressed, uncompressed))
    ensures at + 12 <= |data| && U32(data, at) == crc && U32(data, at + 4) == compressed && U32(data, at + 8) == uncompressed
  {
    hide U32;
    hide Little32;
    hide HoldsAt;
    HoldsInside(data, at, Triple(crc, compressed, uncompressed));
    HoldsPair(data, at, Little32(crc), Little32(compressed) + Little32(uncompressed));
    HoldsPair(data, at + 4, Little32(compressed), Little32(uncompressed));
    Held32(data, at, crc);
    Held32(data, at + 4, compressed);
    Held32(data, at + 8, uncompressed);
  }

  /** Where the parts of a written member are. */
  function BodyStart(m: Member, at: nat): nat
    requires Fits(m)
  {
    at + 30 + |m.local.name| + |ExtraBytes(m.localExtra)|
  }

  lemma PartsHeld(data: seq<byte>, at: nat, m: Member)
    requires Fits(m) && HoldsAt(data, at, LocalPart(m))
    ensures var start := BodyStart(m, at); var end := start + |m.body|;
            && HoldsAt(data, at, LocalFields(m)) && HoldsAt(data, at + 30, m.local.name)
            && HoldsAt(data, at + 30 + |m.local.name|, ExtraBytes(m.localExtra)) && HoldsAt(data, start, m.body)
            && HoldsAt(data, end, TrailerBytes(m.trailer)) && end + |TrailerBytes(m.trailer)| == at + |LocalPart(m)| <= |data|
  {
    hide LocalFields;
    hide ExtraBytes;
    hide TrailerBytes;
    hide HoldsAt;
    HoldsInside(data, at, LocalPart(m));
    var p4 := m.body + TrailerBytes(m.trailer);
    var p3 := ExtraBytes(m.localExtra) + p4;
    var p2 := m.local.name + p3;
    HoldsPair(data, at, LocalFields(m), p2);
    HoldsPair(data, at + 30, m.local.name, p3);
    HoldsPair(data, at + 30 + |m.local.name|, ExtraBytes(m.localExtra), p4);
    HoldsPair(data, BodyStart(m, at), m.body, TrailerBytes(m.trailer));
  }

  lemma HeaderAgrees(data: seq<byte>, at: nat, m: Member, limit: nat)
    requires Fits(m) && HoldsAt(data, at, LocalPart(m)) && at + |LocalPart(m)| <= limit <= |data|
    ensures LocalHeaderAgrees(data, EntryOf(m, at), limit) <==>
            && m.local.name == m.central.name && m.local.compression == m.central.compression && Alike(m.local.flags, m.central.flags)
            && m.local.compressed != NO_U32 && m.local.uncompressed != NO_U32
            && (if m.trailer.NoTrailer?
                then m.local.crc == m.central.crc && m.local.compressed == m.central.compressed && m.local.uncompressed == m.central.uncompressed
                else m.local.crc in {0, m.central.crc} && m.local.compressed in {0, m.central.compressed} && m.local.uncompressed in {0, m.central.uncompressed})
    ensures at + 30 <= |data| && U16(data, at + 26) == |m.local.name| && U16(data, at + 28) == |ExtraBytes(m.localExtra)|
    ensures LocalExtra(data, EntryOf(m, at)) == ExtraBytes(m.localExtra)
  {
    hide U16;
    hide U32;
    hide Bit;
    hide FlagWord;
    hide LocalFields;
    hide ExtraBytes;
    hide TrailerBytes;
    PartsHeld(data, at, m);
    LocalHeld(data, at, m);
    FlagBits(m.local.flags);
    FlagBits(m.central.flags);
  }

  /** A written member is framed where it was written exactly if its headers agree. */
  lemma RangeReads(data: seq<byte>, at: nat, m: Member, limit: nat)
    requires Fits(m) && Legible(m) && HoldsAt(data, at, LocalPart(m)) && at + |LocalPart(m)| <= limit <= |data|
    ensures LocalRange(data, EntryOf(m, at), limit) ==
            if Consistent(m) then Range(BodyStart(m, at), BodyStart(m, at) + |m.body|, at + |LocalPart(m)|) else Unframed
  {
    hide U16;
    hide U32;
    hide Bit;
    hide FlagWord;
    hide LocalPart;
    hide LocalHeaderAgrees;
    hide HoldsAt;
    hide ExtraBytes;
    PartsHeld(data, at, m);
    HeaderAgrees(data, at, m, limit);
    FlagBits(m.central.flags);
    var end := BodyStart(m, at) + |m.body|;
    match m.trailer {
      case NoTrailer =>
      case Unsigned(crc, compressed, uncompressed) =>
        TripleHeld(data, end, crc, compressed, uncompressed);
      case Signed(crc, compressed, uncompressed) =>
        HoldsPair(data, end, Little32(DESCRIPTOR_SIGNATURE), Triple(crc, compressed, uncompressed));
        HoldsInside(data, end, TrailerBytes(m.trailer));
        Held32(data, end, DESCRIPTOR_SIGNATURE);
        TripleHeld(data, end + 4, crc, compressed, uncompressed);
    }
  }

  /** A member is admitted where it is written exactly if its headers agree, the policy allows it and
      neither header has a ZIP64 block. */
  ghost predicate Permitted(policy: Policy, m: Member, at: nat) {
    && policy.validPath(m.central.name, policy.isDirectory(m.creator, m.attributes)) && !policy.isSymlink(m.creator, m.attributes)
    && at != NO_U32 && m.central.compressed != NO_U32 && m.central.uncompressed != NO_U32
    && !Has64(m.localExtra) && !Has64(m.extra)
  }

  lemma EntryReads(data: seq<byte>, policy: Policy, at: nat, m: Member, limit: nat)
    requires Fits(m) && Legible(m) && HoldsAt(data, at, LocalPart(m)) && at + |LocalPart(m)| <= limit <= |data|
    ensures EntryOk(data, policy, EntryOf(m, at), limit) <==> Consistent(m) && Permitted(policy, m, at)
  {
    hide LocalRange;
    hide LocalPart;
    hide HasZip64Extra;
    hide FramedExtra;
    hide Has64;
    hide Ragged;
    hide HoldsAt;
    hide FlagWord;
    hide Consistent;
    hide LocalHeaderAgrees;
    RangeReads(data, at, m, limit);
    HeaderAgrees(data, at, m, limit);
    BlocksRead(m.localExtra);
    BlocksRead(m.extra);
  }

  // Whole archives

  /** Members in directory order, the order in which they lie in the file, and where each begins. */
  datatype Layout = Layout(members: seq<Member>, order: seq<nat>, offsets: seq<nat>, comment: seq<byte>)

  ghost predicate Ordered(l: Layout) {
    && (forall i :: 0 <= i < |l.members| ==> Fits(l.members[i]))
    && Enumerates(l.order, |l.members|) && |l.offsets| == |l.members|
    && (forall k :: 0 <= k < |l.order| ==> l.order[k] < |l.members|)
    && (forall i :: 0 <= i < |l.offsets| ==> l.offsets[i] <= NO_U32)
  }

  /** The first `k` members in file order. */
  ghost function LocalsTo(l: Layout, k: nat): seq<byte>
    requires Ordered(l) && k <= |l.order|
  {
    if k == 0 then [] else LocalsTo(l, k - 1) + LocalPart(l.members[l.order[k - 1]])
  }

  /** The first `k` central records. */
  ghost function CentralsTo(l: Layout, k: nat): seq<byte>
    requires Ordered(l) && k <= |l.members|
  {
    if k == 0 then [] else CentralsTo(l, k - 1) + CentralPart(l.members[k - 1], l.offsets[k - 1])
  }

  /** Every member begins where those before it end, and all sizes fit their fields. */
  ghost predicate Placed(l: Layout) {
    && Ordered(l) && |l.members| < 0xFFFF && |l.comment| < 0x10000
    && (forall k {:trigger LocalsTo(l, k)} :: 0 <= k < |l.order| ==> l.offsets[l.order[k]] == |LocalsTo(l, k)|)
    && |LocalsTo(l, |l.order|)| <= NO_U32 && |CentralsTo(l, |l.members|)| <= NO_U32
  }

  ghost function EndOf(l: Layout): seq<byte>
    requires Placed(l)
  {
    EndPart(|l.members|, |CentralsTo(l, |l.members|)|, |LocalsTo(l, |l.order|)|, l.comment)
  }

  /** Inside the end record and its comment nothing looks like another end record. */
  predicate OneEnd(part: seq<byte>) {
    forall q :: 0 < q <= |part| ==> !LooksLikeEnd(part, q)
  }

  predicate LooksLikeEnd(part: seq<byte>, q: nat) {
    q + 22 <= |part| && part[q..q + 4] == [0x50, 0x4B, 5, 6]
  }

  /** The bytes of the archive. */
  ghost function Bytes(l: Layout): seq<byte>
    requires Placed(l)
  {
    LocalsTo(l, |l.order|) + (CentralsTo(l, |l.members|) + EndOf(l))
  }

  ghost function EntriesOf(l: Layout): (entries: seq<Entry>)
    requires Ordered(l)
    ensures |entries| == |l.members|
  {
    seq(|l.members|, i requires 0 <= i < |l.members| => EntryOf(l.members[i], l.offsets[i]))
  }

  /** What the end record says. */
  ghost function EndRecordOf(l: Layout): End
    requires Placed(l)
  {
    var start := |LocalsTo(l, |l.order|)|;
    End(start + |CentralsTo(l, |l.members|)|, start, |l.members|)
  }

  /** Without a comment there is one end record only, and any member that fits is an archive by itself. */
  lemma OneMember(m: Member)
    requires Fits(m) && |LocalPart(m)| <= NO_U32 && |CentralPart(m, 0)| <= NO_U32
    ensures var l := Layout([m], [0], [0], []); Placed(l) && OneEnd(EndOf(l))
  {
    hide LocalPart;
    hide CentralPart;
    hide EndPart;
    var l := Layout([m], [0], [0], []);
    assert AllIndices(1) == [0];
    assert LocalsTo(l, 0) == [] && LocalsTo(l, 1) == [] + LocalPart(m);
    assert CentralsTo(l, 0) == [] && CentralsTo(l, 1) == [] + CentralPart(m, 0);
  }

  // The end record

  lemma EndHeld(data: seq<byte>, at: nat, count: nat, size: nat, start: nat, comment: seq<byte>)
    requires count < 0x10000 && size <= NO_U32 && start <= NO_U32 && |comment| < 0x10000
    requires HoldsAt(data, at, EndPart(count, size, start, comment))
    ensures at + 22 + |comment| <= |data| && U32(data, at) == 0x06054b50 && U16(data, at + 4) == 0 && U16(data, at + 6) == 0
    ensures U16(data, at + 8) == count && U16(data, at + 10) == count && U32(data, at + 12) == size && U32(data, at + 16) == start
    ensures U16(data, at + 20) == |comment|
  {
    hide HoldsAt;
    hide U16;
    hide U32;
    hide Little16;
    hide Little32;
    HoldsInside(data, at, EndPart(count, size, start, comment));
    var p8 := Little16(|comment|) + comment;
    var p7 := Little32(start) + p8;
    var p6 := Little32(size) + p7;
    var p5 := Little16(count) + p6;
    var p4 := Little16(count) + p5;
    var p3 := Little16(0) + p4;
    var p2 := Little16(0) + p3;
    HoldsPair(data, at, Little32(0x06054b50), p2);
    HoldsPair(data, at + 4, Little16(0), p3);
    HoldsPair(data, at + 6, Little16(0), p4);
    HoldsPair(data, at + 8, Little16(count), p5);
    HoldsPair(data, at + 10, Little16(count), p6);
    HoldsPair(data, at + 12, Little32(size), p7);
    HoldsPair(data, at + 16, Little32(start), p8);
    HoldsPair(data, at + 20, Little16(|comment|), comment);
    Held32(data, at, 0x06054b50);
    Held16(data, at + 4, 0);
    Held16(data, at + 6, 0);
    Held16(data, at + 8, count);
    Held16(data, at + 10, count);
    Held32(data, at + 12, size);
    Held32(data, at + 16, start);
    Held16(data, at + 20, |comment|);
  }

  lemma SignatureBytes(data: seq<byte>, q: nat)
    requires q + 4 <= |data|
    ensures SignatureAt(data, q, END_SIGNATURE) <==> data[q..q + 4] == [0x50, 0x4B, 5, 6]
  {
    Held32(data, q, END_SIGNATURE);
    hide U32;
    assert Little32(0x06054b50) == [0x50, 0x4B, 5, 6];
  }

  /** The end record that is written is the one that is found, if it is the only one. */
  lemma EndReads(data: seq<byte>, l: Layout)
    requires Placed(l) && data == Bytes(l)
    ensures EndAt(data, EndRecordOf(l)) <==> OneEnd(EndOf(l))
  {
    hide U16;
    hide U32;
    hide LocalsTo;
    hide CentralsTo;
    hide EndPart;
    hide Ordered;
    var front := LocalsTo(l, |l.order|) + CentralsTo(l, |l.members|);
    var part, p := EndOf(l), |front|;
    assert data == front + part;
    assert HoldsAt(data, p, part);
    EndHeld(data, p, |l.members|, |CentralsTo(l, |l.members|)|, |LocalsTo(l, |l.order|)|, l.comment);
    assert |part| == 22 + |l.comment| && |data| == p + |part|;
    assert EndRecordOf(l).offset == p;
    assert Framed(data, p) && Ordinary(data, p);
    LastIsOne(data, front, part);
  }

  lemma LastIsOne(data: seq<byte>, front: seq<byte>, part: seq<byte>)
    requires data == front + part && |part| >= 22 && SignatureAt(data, |front|, END_SIGNATURE)
    ensures LastSignature(data, |front|) <==> OneEnd(part)
  {
    hide SignatureAt;
    var p := |front|;
    forall q: nat | p < q && q + 22 <= |data|
      ensures SignatureAt(data, q, END_SIGNATURE) <==> LooksLikeEnd(part, q - p)
    {
      SignatureBytes(data, q);
      assert data[q..q + 4] == part[q - p..q - p + 4];
    }
    if LastSignature(data, p) {
      forall q | 0 < q <= |part|
        ensures !LooksLikeEnd(part, q)
      {
        if q + 22 <= |part| {
          assert !SignatureAt(data, p + q, END_SIGNATURE);
        }
      }
    }
  }

  // The directory

  lemma {:induction false} CentralsPrefix(l: Layout, j: nat, k: nat)
    requires Ordered(l) && j <= k <= |l.members|
    ensures CentralsTo(l, j) <= CentralsTo(l, k)
    decreases k
  {
    hide CentralPart;
    if j < k {
      CentralsPrefix(l, j, k - 1);
    }
  }

  lemma {:induction false} LocalsPrefix(l: Layout, j: nat, k: nat)
    requires Ordered(l) && j <= k <= |l.order|
    ensures LocalsTo(l, j) <= LocalsTo(l, k)
    decreases k
  {
    hide LocalPart;
    if j < k {
      LocalsPrefix(l, j, k - 1);
    }
  }

  /** The records of the directory, one behind the other. */
  ghost function Positions(l: Layout, start: nat, k: nat): (records: seq<nat>)
    requires Ordered(l) && k <= |l.members|
    ensures |records| == k
  {
    seq(k, i requires 0 <= i < k => start + |CentralsTo(l, i)|)
  }

  lemma CentralHeld(data: seq<byte>, l: Layout, start: nat, i: nat)
    requires Ordered(l) && i < |l.members| && HoldsAt(data, start, CentralsTo(l, |l.members|))
    ensures HoldsAt(data, start + |CentralsTo(l, i)|, CentralPart(l.members[i], l.offsets[i]))
    ensures start + |CentralsTo(l, i + 1)| == start + |CentralsTo(l, i)| + |CentralPart(l.members[i], l.offsets[i])| <= start + |CentralsTo(l, |l.members|)|
  {
    hide CentralPart;
    CentralsPrefix(l, i + 1, |l.members|);
    var all, upto := CentralsTo(l, |l.members|), CentralsTo(l, i + 1);
    assert all == upto + all[|upto|..];
    HoldsPair(data, start, upto, all[|upto|..]);
    HoldsPair(data, start, CentralsTo(l, i), CentralPart(l.members[i], l.offsets[i]));
  }

  lemma {:induction false} DirectoryReads(data: seq<byte>, l: Layout, start: nat, k: nat)
    requires Ordered(l) && k <= |l.members| && HoldsAt(data, start, CentralsTo(l, |l.members|))
    ensures var end := start + |CentralsTo(l, |l.members|)|;
            end <= |data| && Records(data, start, start + |CentralsTo(l, k)|, end, Positions(l, start, k))
    decreases k
  {
    hide Ordered;
    hide CentralPart;
    hide U16;
    hide U32;
    hide VariableSize;
    hide HoldsAt;
    HoldsInside(data, start, CentralsTo(l, |l.members|));
    if k > 0 {
      DirectoryReads(data, l, start, k - 1);
      CentralHeld(data, l, start, k - 1);
      MemberFits(l, k - 1);
      var p, end := start + |CentralsTo(l, k - 1)|, start + |CentralsTo(l, |l.members|)|;
      CentralReads(data, p, l.members[k - 1], l.offsets[k - 1]);
      RecordsAppend(data, start, p, end, Positions(l, start, k - 1));
      assert Positions(l, start, k - 1) + [p] == Positions(l, start, k);
    }
  }

  lemma MemberFits(l: Layout, i: nat)
    requires Ordered(l) && i < |l.members|
    ensures |l.offsets| == |l.members| && Fits(l.members[i]) && l.offsets[i] <= NO_U32
  {
  }

  lemma DescribedReads(data: seq<byte>, l: Layout, start: nat)
    requires Ordered(l) && HoldsAt(data, start, CentralsTo(l, |l.members|))
    ensures Described(data, Positions(l, start, |l.members|), EntriesOf(l))
  {
    hide Ordered;
    hide CentralPart;
    hide CentralsTo;
    hide U16;
    hide U32;
    hide VariableSize;
    hide Central;
    hide EntryOf;
    hide HoldsAt;
    var records := Positions(l, start, |l.members|);
    forall i | 0 <= i < |records|
      ensures records[i] + 46 <= |data| && records[i] + 46 + VariableSize(data, records[i]) <= |data|
      ensures Central(data, records[i]) == EntriesOf(l)[i]
    {
      MemberFits(l, i);
      CentralHeld(data, l, start, i);
      CentralReads(data, records[i], l.members[i], l.offsets[i]);
    }
    assert Entries(data, records) == EntriesOf(l);
  }

  // The local area

  lemma LocalPlace(data: seq<byte>, l: Layout, k: nat)
    requires Placed(l) && data == Bytes(l) && k < |l.order|
    ensures var i := l.order[k];
            && HoldsAt(data, l.offsets[i], LocalPart(l.members[i]))
            && l.offsets[i] + |LocalPart(l.members[i])| == |LocalsTo(l, k + 1)| <= |LocalsTo(l, |l.order|)| <= |data|
  {
    hide LocalPart;
    hide EndOf;
    hide CentralsTo;
    LocalsPrefix(l, k + 1, |l.order|);
    var all, upto := LocalsTo(l, |l.order|), LocalsTo(l, k + 1);
    assert all == upto + all[|upto|..];
    assert HoldsAt(data, 0, all);
    HoldsPair(data, 0, upto, all[|upto|..]);
    HoldsPair(data, 0, LocalsTo(l, k), LocalPart(l.members[l.order[k]]));
  }

  ghost predicate AllLegible(l: Layout) {
    forall i :: 0 <= i < |l.members| ==> Legible(l.members[i])
  }

  /** The members agree with themselves and with the policy, and their names differ. */
  ghost predicate Sound(l: Layout, policy: Policy)
    requires Ordered(l)
  {
    && (forall i :: 0 <= i < |l.members| ==> Consistent(l.members[i]) && Permitted(policy, l.members[i], l.offsets[i]))
    && forall i, j :: 0 <= i < j < |l.members| ==> l.members[i].central.name != l.members[j].central.name
  }

  lemma MemberReads(data: seq<byte>, l: Layout, policy: Policy, i: nat)
    requires Placed(l) && AllLegible(l) && data == Bytes(l) && i < |l.members|
    ensures var m, at, limit := l.members[i], l.offsets[i], |LocalsTo(l, |l.order|)|;
            && limit <= |data|
            && (EntryOk(data, policy, EntriesOf(l)[i], limit) <==> Consistent(m) && Permitted(policy, m, at))
            && LocalRange(data, EntriesOf(l)[i], limit) ==
               if Consistent(m) then Range(BodyStart(m, at), BodyStart(m, at) + |m.body|, at + |LocalPart(m)|) else Unframed
  {
    hide LocalPart;
    hide EntryOk;
    hide LocalRange;
    hide Consistent;
    hide Permitted;
    hide Bytes;
    hide LocalsTo;
    hide CentralsTo;
    EnumeratesAll(l.order, |l.members|);
    assert i in l.order;
    var k :| 0 <= k < |l.order| && l.order[k] == i;
    LocalPlace(data, l, k);
    EntryReads(data, policy, l.offsets[i], l.members[i], |LocalsTo(l, |l.order|)|);
    RangeReads(data, l.offsets[i], l.members[i], |LocalsTo(l, |l.order|)|);
  }

  lemma EntriesRead(data: seq<byte>, l: Layout, policy: Policy)
    requires Placed(l) && AllLegible(l) && data == Bytes(l)
    ensures EntriesOk(data, policy, EntriesOf(l), |LocalsTo(l, |l.order|)|) <==> Sound(l, policy)
  {
    hide EntryOk;
    hide LocalRange;
    hide LocalsTo;
    hide Consistent;
    hide Permitted;
    hide Bytes;
    hide CentralsTo;
    hide LocalPart;
    hide AllLegible;
    var entries := EntriesOf(l);
    forall i | 0 <= i < |entries|
      ensures EntryOk(data, policy, entries[i], |LocalsTo(l, |l.order|)|) <==> Consistent(l.members[i]) && Permitted(policy, l.members[i], l.offsets[i])
      ensures entries[i].name == l.members[i].central.name
    {
      MemberReads(data, l, policy, i);
    }
    if DistinctNames(entries) {
      forall i, j | 0 <= i < j < |l.members|
        ensures l.members[i].central.name != l.members[j].central.name
      {
        assert entries[i].name != entries[j].name;
      }
    }
  }

  /** The members tile the local area in their order. */
  lemma MembersTile(data: seq<byte>, l: Layout, policy: Policy)
    requires Placed(l) && AllLegible(l) && data == Bytes(l) && Sound(l, policy)
    ensures var limit := |LocalsTo(l, |l.order|)|; Tiles(Starts(EntriesOf(l)), Ends(data, EntriesOf(l), limit), l.order, limit)
  {
    hide EntryOk;
    hide LocalRange;
    hide LocalsTo;
    hide Permitted;
    hide Bytes;
    hide CentralsTo;
    hide LocalPart;
    hide AllLegible;
    hide Consistent;
    hide Enumerates;
    var entries, limit := EntriesOf(l), |LocalsTo(l, |l.order|)|;
    var starts, ends := Starts(entries), Ends(data, entries, limit);
    LocalsBegin(l);
    forall k | 0 <= k < |l.order|
      ensures starts[l.order[k]] == |LocalsTo(l, k)| && ends[l.order[k]] == |LocalsTo(l, k + 1)|
    {
      LocalPlace(data, l, k);
      MemberReads(data, l, policy, l.order[k]);
    }
    EnumeratesAll(l.order, |l.members|);
    forall k {:trigger Before(ends, l.order, k)} | 0 <= k <= |l.order|
      ensures Before(ends, l.order, k) == |LocalsTo(l, k)|
    {
      if k > 0 {
        assert ends[l.order[k - 1]] == |LocalsTo(l, k - 1 + 1)|;
      }
    }
  }

  lemma LocalsBegin(l: Layout)
    requires Ordered(l)
    ensures LocalsTo(l, 0) == []
  {
  }

  /** What is written has an inventory exactly if its end record is the only one and its members are
      sound; then the inventory is what was written. */
  lemma InventoryReads(l: Layout, policy: Policy)
    requires Placed(l) && AllLegible(l)
    ensures OneEnd(EndOf(l)) && Sound(l, policy) ==> Inventory(Bytes(l), policy, EndRecordOf(l), EntriesOf(l))
    ensures forall end, entries :: OneEnd(EndOf(l)) && Inventory(Bytes(l), policy, end, entries) ==>
              end == EndRecordOf(l) && entries == EntriesOf(l) && Sound(l, policy)
  {
    hide LocalsTo;
    hide CentralsTo;
    hide EndOf;
    hide Bytes;
    hide EndAt;
    hide EntriesOk;
    hide Tiles;
    hide Records;
    hide Described;
    hide Sound;
    hide AllLegible;
    hide EntriesOf;
    hide OneEnd;
    hide Inventory;
    var data, start := Bytes(l), |LocalsTo(l, |l.order|)|;
    var end, entries, records := EndRecordOf(l), EntriesOf(l), Positions(l, start, |l.members|);
    PartsOf(data, l);
    EndReads(data, l);
    DirectoryReads(data, l, start, |l.members|);
    DescribedReads(data, l, start);
    EntriesRead(data, l, policy);
    if OneEnd(EndOf(l)) {
      if Sound(l, policy) {
        MembersTile(data, l, policy);
        EntriesCount(l);
        MakeInventory(data, policy, end, records, entries, l.order);
      }
      forall end', entries' | Inventory(data, policy, end', entries')
        ensures end' == end && entries' == entries && Sound(l, policy)
      {
        InventoryUnique(data, policy, end, records, end', entries');
        DescribedOnce(data, records, entries, entries');
        InventoryOk(data, policy, end', entries');
      }
    }
  }

  lemma EntriesCount(l: Layout)
    requires Placed(l)
    ensures |EntriesOf(l)| % 0x10000 == EndRecordOf(l).count
  {
    hide LocalsTo;
    hide CentralsTo;
  }

  lemma DescribedOnce(data: seq<byte>, records: seq<nat>, a: seq<Entry>, b: seq<Entry>)
    requires Described(data, records, a) && Described(data, records, b)
    ensures a == b
  {
  }

  lemma InventoryOk(data: seq<byte>, policy: Policy, end: End, entries: seq<Entry>)
    requires Inventory(data, policy, end, entries)
    ensures EntriesOk(data, policy, entries, end.start)
  {
    hide EntriesOk;
    hide EndAt;
    hide Tiles;
    hide Records;
    hide Described;
  }

  /** Where the directory is. */
  lemma PartsOf(data: seq<byte>, l: Layout)
    requires Placed(l) && data == Bytes(l)
    ensures HoldsAt(data, |LocalsTo(l, |l.order|)|, CentralsTo(l, |l.members|)) && EndRecordOf(l).offset <= |data|
  {
    hide LocalsTo;
    hide CentralsTo;
    hide EndPart;
    var start := |LocalsTo(l, |l.order|)|;
    assert data[start..] == CentralsTo(l, |l.members|) + EndOf(l);
    assert HoldsAt(data, start, CentralsTo(l, |l.members|) + EndOf(l));
    HoldsPair(data, start, CentralsTo(l, |l.members|), EndOf(l));
  }

  /** What is kept of a member: both sides of it, and its body where it was written. */
  ghost predicate Matches(e: Observed, data: seq<byte>, m: Member, at: nat)
    requires Fits(m)
  {
    && e.central == EntryOf(m, at)
    && e.range == Range(BodyStart(m, at), BodyStart(m, at) + |m.body|, at + |LocalPart(m)|)
    && HoldsAt(data, e.range.bodyStart, m.body)
  }

  ghost predicate AllMatch(entries: seq<Observed>, data: seq<byte>, l: Layout)
    requires Ordered(l)
  {
    |entries| == |l.members| && forall i :: 0 <= i < |l.members| ==> Matches(entries[i], data, l.members[i], l.offsets[i])
  }

  /** Observing what was written: the inventory is complete exactly if the members are sound, and then
      it has their names, sizes, checksums, offsets and body ranges, in directory order. */
  method ObserveWritten(account: Account, policy: Policy, data: seq<byte>, ghost l: Layout) returns (archive: Archive)
    requires Placed(l) && AllLegible(l) && OneEnd(EndOf(l)) && data == Bytes(l)
    modifies account
    ensures fresh(archive) && (archive.inventoryComplete ==> Sound(l, policy))
    ensures account.ample ==> (archive.inventoryComplete <==> Sound(l, policy))
    ensures archive.inventoryComplete ==> AllMatch(archive.entries, data, l)
  {
    hide AllMatch;
    hide Ordered;
    hide Placed;
    hide Bytes;
    hide EndOf;
    hide LocalsTo;
    hide CentralsTo;
    hide LocalPart;
    hide Inventory;
    hide Keeps;
    hide Tiles;
    hide Ranked;
    hide Indexes;
    hide Sound;
    hide AllLegible;
    hide OneEnd;
    archive := new Archive(account, policy, data);
    InventoryReads(l, policy);
    var out := archive.Observe();
    if archive.inventoryComplete {
      KeptWritten(archive, l);
    }
  }

  lemma KeptWritten(archive: Archive, l: Layout)
    requires Placed(l) && AllLegible(l) && OneEnd(EndOf(l)) && archive.data == Bytes(l) && archive.Complete()
    ensures AllMatch(archive.entries, archive.data, l)
  {
    hide Bytes;
    hide EndOf;
    hide LocalsTo;
    hide CentralsTo;
    hide LocalPart;
    hide Inventory;
    hide Tiles;
    hide Ranked;
    hide Indexes;
    hide AllLegible;
    hide OneEnd;
    hide EntryOf;
    hide Consistent;
    hide LocalRange;
    hide Permitted;
    hide EntryOk;
    InventoryReads(l, archive.policy);
    var data := archive.data;
    var all :| Inventory(data, archive.policy, archive.end, all) && Keeps(archive.entries, all, data, archive.end.start);
    forall i | 0 <= i < |l.members|
      ensures Matches(archive.entries[i], data, l.members[i], l.offsets[i])
    {
      MemberReads(data, l, archive.policy, i);
      MemberBody(data, l, i);
    }
  }

  lemma MemberBody(data: seq<byte>, l: Layout, i: nat)
    requires Placed(l) && data == Bytes(l) && i < |l.members|
    ensures HoldsAt(data, BodyStart(l.members[i], l.offsets[i]), l.members[i].body)
  {
    hide LocalPart;
    hide Bytes;
    hide LocalsTo;
    hide CentralsTo;
    EnumeratesAll(l.order, |l.members|);
    assert i in l.order;
    var k :| 0 <= k < |l.order| && l.order[k] == i;
    LocalPlace(data, l, k);
    PartsHeld(data, l.offsets[i], l.members[i]);
  }

  // A written archive is held to the cap of archives

  lemma PartBegins(data: seq<byte>, part: seq<byte>, n: nat, rest: seq<byte>)
    requires n < 0x100000000 && HoldsAt(data, 0, part) && part == Little32(n) + rest
    ensures ExpandedBodies.Begins(data, Little32(n))
  {
    hide Little32;
    HoldsPair(data, 0, Little32(n), rest);
  }

  lemma EndBegins(count: nat, size: nat, start: nat, comment: seq<byte>) returns (rest: seq<byte>)
    requires count < 0x10000 && size <= NO_U32 && start <= NO_U32 && |comment| < 0x10000
    ensures EndPart(count, size, start, comment) == Little32(0x06054b50) + rest
  {
    hide Little32;
    hide Little16;
    rest := EndPart(count, size, start, comment)[4..];
  }

  lemma LocalBegins(m: Member) returns (rest: seq<byte>)
    requires Fits(m)
    ensures LocalPart(m) == Little32(0x04034b50) + rest
  {
    hide Little32;
    hide Little16;
    hide ExtraBytes;
    rest := LocalFields(m)[4..] + (m.local.name + (ExtraBytes(m.localExtra) + (m.body + TrailerBytes(m.trailer))));
    assert LocalFields(m) == Little32(0x04034b50) + LocalFields(m)[4..];
  }

  lemma CentralsBegin(l: Layout)
    requires Ordered(l)
    ensures CentralsTo(l, 0) == []
  {
  }

  lemma CappedAsArchive(l: Layout, limits: ExpandedBodies.Limits)
    requires Placed(l)
    ensures ExpandedBodies.BodyLimit(ExpandedBodies.PrimaryDocument, limits, Bytes(l)) == ExpandedBodies.Least(limits.archive, limits.resource)
  {
    hide LocalPart;
    hide EndPart;
    hide CentralsTo;
    hide Little16;
    hide ExpandedBodies.BodyLimit;
    var data := Bytes(l);
    assert Little32(0x04034b50) == [0x50, 0x4B, 3, 4] && Little32(0x06054b50) == [0x50, 0x4B, 5, 6];
    if l.order == [] {
      CentralsBegin(l);
      assert l.members == [] && data == [] + ([] + EndOf(l)) == EndOf(l);
      var rest := EndBegins(|l.members|, |CentralsTo(l, |l.members|)|, |LocalsTo(l, |l.order|)|, l.comment);
      PartBegins(data, EndOf(l), 0x06054b50, rest);
    } else {
      LocalsBegin(l);
      LocalPlace(data, l, 0);
      var rest := LocalBegins(l.members[l.order[0]]);
      PartBegins(data, LocalPart(l.members[l.order[0]]), 0x04034b50, rest);
    }
    ExpandedBodies.LimitMeans(ExpandedBodies.PrimaryDocument, limits, data);
  }
}
