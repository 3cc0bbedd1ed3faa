/** The byte cursor under the token reader: one refill buffer over an arbitrary reader, a
    four-byte prefix for encoding detection, one character of lookahead after a CR and one
    unit of lookahead for the scanner, and two fast paths. */
module Cursors {
  import opened Utf8
  import opened SourceText
  import opened Accounts

  const BUFFER: nat := 4096
  const ATTEMPTS: nat := 100

  // The reader

  datatype Status = More | Eof | Fault

  /** A reader delivers its bytes in pieces the environment chooses.  A reliable one never
      faults and never returns nothing without being at its end. */
  class ByteSource {
    const reliable: bool
    var rest: seq<byte>

    constructor (content: seq<byte>, reliable: bool)
      ensures rest == content && this.reliable == reliable
    {
      rest, this.reliable := content, reliable;
    }

    method Read(limit: nat) returns (chunk: seq<byte>, status: Status)
      modifies this
      ensures |chunk| <= limit && old(rest) == chunk + rest
      ensures status == Eof ==> rest == []
      ensures reliable && limit > 0 ==> status != Fault && (chunk == [] ==> status == Eof)
    {
      var s: Status := *;
      var most := if limit < |rest| then limit else |rest|;
      var k :| 0 <= k <= most && (reliable && most > 0 ==> k > 0);
      chunk, rest := rest[..k], rest[k..];
      status := if s == Fault && !reliable then Fault else if rest == [] && (s == Eof || k == 0) then Eof else More;
    }
  }

  // Results

  datatype Fetch<+T> = Got(value: T) | EndOfInput | Malformed | Failed

  datatype Ahead<T> = Nothing | Held(value: T)

  datatype RawUnit = RawUnit(r: Rune, start: nat, end: nat)

  datatype Owner = Primary | Fetched | Accounted

  /** The names an encoding declaration can give, as far as they differ. */
  datatype Charset = Unstated | Utf8Charset | Latin1Charset | Utf16Charset | Utf16BECharset | Utf16LECharset | OtherCharset

  datatype Verdict = Accepted | Mismatch | Unsupported

  /** Whether a declaration agrees with what the first bytes say.  UTF-16 without a signature has
      to be declared with its byte order. */
  predicate Compatible(encoding: Encoding, bom: bool, declared: Charset) {
    match encoding
    case Utf8 => declared == Unstated || declared == Utf8Charset || (declared == Latin1Charset && !bom)
    case Utf16BE => declared == Utf16BECharset || (bom && (declared == Unstated || declared == Utf16Charset))
    case Utf16LE => declared == Utf16LECharset || (bom && (declared == Unstated || declared == Utf16Charset))
    case Latin1 => false
  }

  datatype AsciiMode = NameSpan | TextSpan | QuotedSpan | SpaceSpan

  predicate Spans(mode: AsciiMode, quote: byte, b: byte) {
    match mode
    case NameSpan =>
      0x61 <= b <= 0x7A || 0x41 <= b <= 0x5A || 0x30 <= b <= 0x39 || b == 0x5F || b == 0x3A || b == 0x2D || b == 0x2E
    case TextSpan =>
      (32 <= b < 128 || b == 9 || b == 10) && b != 0x3C && b != 0x26 && b != 0x5D && b != 0x3E
    case QuotedSpan => 32 <= b < 128 && b != quote && b != 0x26 && b != 0x3C
    case SpaceSpan => b == 32 || b == 9 || b == 10
  }

  /** What every span mode admits: ASCII characters that line-end normalization ignores. */
  predicate Plain(b: byte) {
    32 <= b < 128 || b == 9 || b == 10
  }

  ghost predicate AllPlain(bytes: seq<byte>) {
    forall i :: 0 <= i < |bytes| ==> Plain(bytes[i])
  }

  /** Every field of a cursor, and the state of the objects it drives. */
  datatype State = State(
    data: seq<byte>, at: nat, n: nat, pending: Status, fetched: nat,
    prefix: seq<byte>, prefixAt: nat, initialized: bool,
    encoding: Encoding, wide: bool, littleEndian: bool, bom: bool,
    rawOffset: nat, position: Position,
    cached: Ahead<Scanned>, rawCached: Ahead<RawUnit>, rawEnd: bool,
    rest: seq<byte>, usage: Usage)

  /** The state after `k` plain bytes of the buffer. */
  function SpanStep(s: State, k: nat): State
    requires s.at + k <= |s.data|
  {
    s.(at := s.at + k, rawOffset := s.rawOffset + k,
       position := Moved(s.position, s.data[s.at..s.at + k], s.rawOffset + k))
  }

  /** The state after looking ahead at one ASCII character of a buffered UTF-16 text. */
  function WideStep(s: State, r: Rune): State {
    s.(at := s.at + 2, rawOffset := s.rawOffset + 2,
       cached := Held(Scanned(r, s.position, Advance(s.position, r, s.position.offset + 2))))
  }

  /** The state after looking ahead at one plain byte of a buffered narrow text. */
  function PlainStep(s: State): State
    requires s.at < |s.data|
  {
    var r := s.data[s.at];
    s.(at := s.at + 1, rawOffset := s.rawOffset + 1,
       cached := Held(Scanned(r, s.position, Advance(s.position, r, s.position.offset + 1))))
  }

  lemma TakenIsSpan(s: State)
    requires s.at < |s.data| && s.cached == Nothing && s.rawOffset == s.position.offset
    ensures var t := PlainStep(s); t.cached.value.r == s.data[s.at] && t.(position := t.cached.value.end, cached := Nothing) == SpanStep(s, 1)
  {
    hide Advance;
    hide AdvanceAll;
    var r := s.data[s.at];
    MovedStep(s.position, [], r, s.rawOffset, s.rawOffset + 1);
    assert [] + [r] == s.data[s.at..s.at + 1];
  }

  lemma SpanNone(s: State)
    requires s.at <= |s.data| && s.cached == Nothing && s.rawOffset == s.position.offset
    ensures SpanStep(s, 0) == s
  {
    hide Advance;
    hide AdvanceAll;
    assert s.data[s.at..s.at] == [];
    MovedStep(s.position, [], 0, 0, 0);
  }

  lemma SpanMore(s: State, k: nat)
    requires s.at + k < |s.data|
    ensures var t := SpanStep(s, k);
            t.at == s.at + k && t == s.(at := t.at, rawOffset := t.rawOffset, position := t.position)
            && SpanStep(t, 1) == SpanStep(s, k + 1)
  {
    hide Advance;
    hide AdvanceAll;
    var t := SpanStep(s, k);
    var r := s.data[t.at];
    var run := s.data[s.at..t.at];
    assert t.data[t.at..t.at + 1] == [] + [r] == [r];
    assert s.data[s.at..t.at + 1] == run + [r];
    MovedStep(t.position, [], r, t.position.offset, t.rawOffset + 1);
    MovedStep(s.position, run, r, t.position.offset, t.rawOffset + 1);
  }

  function Stepped(s: State, k: nat): State {
    s.(at := s.at + k, rawOffset := s.rawOffset + k)
  }

  // Deciding a UTF-8 character byte by byte

  lemma ShortIsError(s: seq<byte>)
    requires s != [] && !FullRune(s)
    ensures DecodeRune(s) == Decoded(RUNE_ERROR, 1) && |s| < 4
  {
  }

  lemma FirstFullRune(s: seq<byte>, rest: seq<byte>)
    requires FullRune(s) && (|s| == 1 || !FullRune(s[..|s| - 1]))
    ensures DecodeRune(s + rest) == DecodeRune(s)
    ensures DecodeRune(s) != Decoded(RUNE_ERROR, 1) ==> DecodeRune(s).size == |s|
  {
    FullRuneDecides(s, rest);
  }

  lemma AsciiRune(b: byte, rest: seq<byte>)
    requires b < 128
    ensures DecodeRune([b] + rest) == Decoded(b, 1)
  {
  }

  lemma OneMore(bytes: seq<byte>, i: nat, j: nat)
    requires i <= j < |bytes|
    ensures bytes[i..j + 1] == bytes[i..j] + [bytes[j]]
  {
  }

  lemma WideAscii(e: Encoding, bytes: seq<byte>, at: nat)
    requires Wide(e) && at + 2 <= |bytes| && 32 <= CodeUnit(e, bytes, at) < 128
    ensures UnitAt(e, bytes, at) == Raw(CodeUnit(e, bytes, at), 2)
  {
  }

  lemma PlainUnit(e: Encoding, bytes: seq<byte>, at: nat)
    requires !Wide(e) && at < |bytes| && Plain(bytes[at])
    ensures UnitAt(e, bytes, at) == Raw(bytes[at], 1)
  {
    assert bytes[at..] == [bytes[at]] + bytes[at + 1..];
    AsciiRune(bytes[at], bytes[at + 1..]);
  }

  class Cursor {
    const source: ByteSource
    const account: Account
    const owner: Owner
    const data: array<byte>
    ghost const all: seq<byte>     // the bytes the reader holds
    var at: nat
    var n: nat
    var pending: Status            // what the reader said with its last bytes
    var fetched: nat
    var prefix: seq<byte>
    var prefixAt: nat
    var initialized: bool
    var encoding: Encoding
    var wide: bool
    var littleEndian: bool
    var bom: bool
    var rawOffset: nat
    var position: Position
    var cached: Ahead<Scanned>
    var rawCached: Ahead<RawUnit>
    var rawEnd: bool
    ghost var broken: bool         // an error has been reported

    function Kind(): Budget {
      if owner == Fetched then External else Input
    }

    /** The reader and the account will not interfere. */
    predicate Undisturbed() {
      source.reliable && account.ample
    }

    ghost predicate Wired()
      reads this`at, this`n, this`pending, this`fetched, data, source, account
      ensures Wired() ==> at <= n <= data.Length
    {
      && data.Length == BUFFER && at <= n <= BUFFER
      && n - at <= fetched <= |all| && source.rest == all[fetched..]
      && (forall i :: at <= i < n ==> data[i] == all[fetched - n + i])
      && (pending == Eof ==> source.rest == [])
      && (Undisturbed() ==> pending != Fault)
      && (account.ample || account.usage.Of(Kind()) <= account.limits.Of(Kind()))
    }

    /** The index of the next byte to come out of the buffer. */
    ghost function Next(): (k: nat)
      requires Wired()
      reads this`at, this`n, this`pending, this`fetched, data, source, account
      ensures k <= |all|
    {
      fetched - (n - at)
    }

    ghost predicate Synced()
      reads this`at, this`n, this`pending, this`fetched, this`prefix, this`prefixAt, this`rawOffset, data, source, account
      ensures Synced() ==> Wired() && rawOffset <= |all|
    {
      && Wired() && prefixAt <= |prefix| && rawOffset + |prefix| - prefixAt == Next()
      && (forall i :: prefixAt <= i < |prefix| ==> prefix[i] == all[rawOffset - prefixAt + i])
    }

    function StateOf(): State
      reads this, data, source, account
    {
      State(data[..], at, n, pending, fetched, prefix, prefixAt, initialized, encoding, wide, littleEndian, bom,
            rawOffset, position, cached, rawCached, rawEnd, source.rest, account.usage)
    }

    // Abstract state

    /** The position of the next unit, also before the encoding has been looked at. */
    ghost function Here(): Position
      reads this
    {
      if initialized then position else Position(Detect(all).skip, 1, 1)
    }

    ghost function Coding(): Encoding
      reads this
    {
      if initialized then encoding else Detect(all).encoding
    }

    /** Where undelivered decoding resumes. */
    ghost function Resume(): nat
      reads this
    {
      if cached.Held? then cached.value.end.offset else position.offset
    }

    ghost predicate Fresh()
      reads this
    {
      && at == n == fetched == rawOffset == prefixAt == 0 && prefix == [] && pending == More
      && position == Position(0, 1, 1) && cached == Nothing && rawCached == Nothing && !rawEnd
      && encoding == Utf8 && !wide && !littleEndian && !bom
    }

    /** The next character to decode, or the one already decoded, starts at `start`. */
    ghost predicate RawReady(start: nat)
      reads this`at, this`n, this`pending, this`fetched, this`prefix, this`prefixAt, this`rawOffset,
            this`encoding, this`wide, this`littleEndian, this`rawCached, this`rawEnd, data, source, account
      ensures RawReady(start) ==> Synced() && start <= |all| && wide == Wide(encoding) && littleEndian == (encoding == Utf16LE)
      ensures RawReady(start) && rawCached == Nothing ==> rawOffset == start
    {
      && Synced() && start <= |all|
      && wide == Wide(encoding) && littleEndian == (encoding == Utf16LE)
      && (rawCached.Held? ==> !rawEnd && rawCached.value.start == start && rawCached.value.end == rawOffset > start
                              && RawAt(encoding, all, start) == Raw(rawCached.value.r, rawOffset - start))
      && (rawCached.Nothing? ==> rawOffset == start && (rawEnd ==> start == |all|))
    }

    ghost predicate Ready()
      reads this, data, source, account
    {
      && RawReady(Resume()) && position.offset <= |all|
      && (cached.Held? ==> UnitAt(encoding, all, position.offset).Raw?
                           && cached.value == ScannedAt(encoding, all, position))
    }

    ghost predicate Valid()
      reads this, data, source, account
    {
      Wired() && !broken && if initialized then Ready() else Fresh()
    }

    constructor (source: ByteSource, account: Account, owner: Owner)
      requires account.ample || account.usage.Of(if owner == Fetched then External else Input)
                                <= account.limits.Of(if owner == Fetched then External else Input)
      ensures Valid() && fresh(data) && !initialized
      ensures this.source == source && this.account == account && this.owner == owner && all == source.rest
      ensures Here() == Position(Detect(all).skip, 1, 1) && Coding() == Detect(all).encoding
    {
      this.source, this.account, this.owner, all := source, account, owner, source.rest;
      data := new byte[BUFFER];
      at, n, pending, fetched, prefix, prefixAt := 0, 0, More, 0, [], 0;
      initialized, encoding, wide, littleEndian, bom := false, Utf8, false, false, false;
      rawOffset, position, cached, rawCached, rawEnd := 0, Position(0, 1, 1), Nothing, Nothing, false;
      broken := false;
    }

    // Bytes

    /** Who pays for bytes that are read. */
    function Cost(before: Usage, bytes: nat): Usage {
      match owner
      case Primary => before.(input := before.input + bytes)
      case Fetched => before.(external := before.external + bytes)
      case Accounted => before
    }

    lemma CostTwice(before: Usage, a: nat, b: nat)
      ensures Cost(Cost(before, a), b) == Cost(before, a + b) && Cost(before, 0) == before
    {
    }

    /** What the reads since `before` have cost. */
    ghost predicate Billed(before: Usage, from: nat)
      reads this`fetched, account
    {
      from <= fetched && account.usage == Cost(before, fetched - from)
    }

    /** Up to a hundred attempts to get something out of the reader. */
    method Attempt(size: nat) returns (chunk: seq<byte>, status: Status)
      requires size > 0
      modifies source
      ensures |chunk| <= size && old(source.rest) == chunk + source.rest
      ensures status == Eof ==> source.rest == []
      ensures chunk == [] ==> status != More
      ensures Undisturbed() ==> status != Fault
    {
      chunk, status := [], More;
      var attempts := 0;
      while attempts < ATTEMPTS && chunk == [] && status == More
        invariant |chunk| <= size && old(source.rest) == chunk + source.rest
        invariant status == Eof ==> source.rest == []
        invariant Undisturbed() ==> status != Fault && (attempts > 0 ==> chunk != [] || status == Eof)
      {
        var admitted := account.Admit();
        if !admitted {
          status := Fault;
          return;
        }
        chunk, status := source.Read(size);
        attempts := attempts + 1;
      }
      if chunk == [] && status == More {
        status := Fault;
      }
    }

    /** One refill.  At most one byte beyond the quota is asked for, and it is never delivered. */
    method Refill() returns (ok: bool)
      requires Wired() && at == n && pending == More && !broken
      modifies this`at, this`n, this`pending, this`fetched, this`broken, data, source, account
      ensures Wired() && ok == !broken
      ensures ok ==> Next() == old(Next()) && (at == n ==> pending != More)
      ensures ok ==> Billed(old(account.usage), old(fetched)) && n == fetched - old(fetched) <= BUFFER
      ensures Undisturbed() ==> ok
    {
      var billed := owner != Accounted && !account.ample;
      var remaining := if billed then account.limits.Of(Kind()) - account.usage.Of(Kind()) else BUFFER;
      var chunk, status := Attempt(if remaining < BUFFER then remaining + 1 else BUFFER);
      Store(chunk);
      var admitted := Settle(|chunk|, remaining);
      if !admitted {
        n, pending, broken, ok := 0, Fault, true, false;
        return;
      }
      pending := status;
      ok := true;
    }

    method Store(chunk: seq<byte>)
      requires data.Length == BUFFER && |chunk| <= BUFFER && fetched + |chunk| <= |all| && chunk == all[fetched..fetched + |chunk|]
      modifies this`at, this`n, this`fetched, data
      ensures at == 0 && n == |chunk| && fetched == old(fetched) + n
      ensures forall i :: at <= i < n ==> data[i] == all[fetched - n + i]
    {
      at, n, fetched := 0, |chunk|, fetched + |chunk|;
      forall i | 0 <= i < |chunk| {
        data[i] := chunk[i];
      }
    }

    /** The charge for `count` bytes; those beyond the quota are refused after the quota is spent. */
    method Settle(count: nat, remaining: nat) returns (ok: bool)
      requires owner == Accounted || account.ample || account.usage.Of(Kind()) + remaining == account.limits.Of(Kind())
      requires account.ample ==> count <= remaining
      modifies account
      ensures ok ==> account.usage == if owner == Accounted then old(account.usage) else old(account.usage).Plus(Kind(), count)
      ensures account.ample || owner == Accounted || account.usage.Of(Kind()) <= account.limits.Of(Kind())
      ensures owner == Accounted ==> account.usage == old(account.usage)
      ensures account.ample ==> ok
    {
      ok := account.Admit();
      if count > 0 && owner != Accounted && ok {
        ok := account.Charge(Kind(), if count < remaining then count else remaining);
        ok := ok && count <= remaining;
      }
    }

    /** Refills until there is a byte or a reason why there is none. */
    method Await() returns (out: Fetch<()>)
      requires Wired() && !broken
      modifies this`at, this`n, this`pending, this`fetched, this`broken, data, source, account
      ensures Wired() && (broken <==> out.Failed?) && !out.Malformed?
      ensures !broken ==> Next() == old(Next()) && Billed(old(account.usage), old(fetched))
      ensures out.Got? ==> at < n
      ensures out.EndOfInput? ==> at == n && source.rest == []
      ensures old(at < n) ==> out.Got? && StateOf() == old(StateOf())
      ensures Undisturbed() ==> !broken
    {
      while at == n
        invariant Wired() && !broken && Next() == old(Next()) && Billed(old(account.usage), old(fetched))
        invariant old(at < n) ==> at < n && StateOf() == old(StateOf())
        decreases at == n, pending == More
      {
        if pending == Fault {
          broken := true;
          return Failed;
        }
        if pending == Eof {
          return EndOfInput;
        }
        var ok := Refill();
        if !ok {
          return Failed;
        }
      }
      return Got(());
    }

    method Byte() returns (out: Fetch<byte>)
      requires Wired() && !broken
      modifies this`at, this`n, this`pending, this`fetched, this`broken, data, source, account
      ensures Wired() && (broken <==> out.Failed?) && !out.Malformed?
      ensures out.Got? ==> Next() == old(Next()) + 1 && out.value == all[old(Next())]
      ensures out.EndOfInput? ==> Next() == old(Next()) == |all|
      ensures !broken ==> Billed(old(account.usage), old(fetched))
      ensures !broken && old(at < n) ==> out.Got? && StateOf() == old(StateOf()).(at := old(at) + 1)
      ensures Undisturbed() ==> !broken
    {
      hide Billed;
      var admitted := account.Admit();
      if !admitted {
        broken := true;
        return Failed;
      }
      var ready := Await();
      if !ready.Got? {
        return if ready.Failed? then Failed else EndOfInput;
      }
      at := at + 1;
      return Got(data[at - 1]);
    }

    method EncodedByte() returns (out: Fetch<byte>)
      requires Synced() && !broken
      modifies this`at, this`n, this`pending, this`fetched, this`broken, this`prefixAt, this`rawOffset, data, source, account
      ensures Wired() && (broken <==> out.Failed?) && !out.Malformed?
      ensures !broken ==> Synced() && Billed(old(account.usage), old(fetched))
      ensures out.Got? ==> rawOffset == old(rawOffset) + 1 && out.value == all[old(rawOffset)]
      ensures out.EndOfInput? ==> rawOffset == old(rawOffset) == |all|
      ensures !broken && old(Buffering(1)) ==>
                out == Got(old(data[at])) && StateOf() == Stepped(old(StateOf()), 1)
      ensures Undisturbed() ==> !broken
    {
      if prefixAt < |prefix| {
        out := Got(prefix[prefixAt]);
        prefixAt := prefixAt + 1;
      } else {
        out := Byte();
      }
      if out.Got? {
        rawOffset := rawOffset + 1;
      }
    }

    /** The next `k` bytes are in the buffer. */
    predicate Buffering(k: nat)
      reads this
    {
      prefixAt == |prefix| && at + k <= n
    }

    /** Looks at up to four bytes, once, and skips a byte order mark. */
    method Initialize() returns (ok: bool)
      requires Valid()
      modifies this, data, source, account
      ensures ok == !broken
      ensures ok ==> Valid() && initialized && Billed(old(account.usage), old(fetched))
      ensures ok ==> position == old(Here()) && encoding == old(Coding())
      ensures ok && !old(initialized) ==> bom == Detect(all).bom && cached == Nothing
      ensures old(initialized) ==> ok && StateOf() == old(StateOf())
      ensures Undisturbed() ==> ok
    {
      hide Ready;
      hide Detect;
      if initialized {
        return true;
      }
      ok := Begin();
    }

    method Begin() returns (ok: bool)
      requires Wired() && !broken && Fresh()
      modifies this, data, source, account
      ensures ok == !broken
      ensures ok ==> Wired() && Ready() && initialized && Billed(old(account.usage), old(fetched))
      ensures ok ==> Detect(all) == Detected(encoding, bom, position.offset)
      ensures ok ==> position.line == position.column == 1 && cached == Nothing
      ensures Undisturbed() ==> ok
    {
      hide Billed;
      hide Undisturbed;
      hide Detect;
      hide RawAt;
      hide UnitAt;
      hide ScannedAt;
      hide StateOf;
      hide Wired;
      initialized := true;
      ok := Prefetch();
      if !ok {
        return;
      }
      if |all| > 4 {
        DetectPrefix(all);
      }
      assert forall i :: 0 <= i < |prefix| ==> prefix[i] == all[i];
      Recognize();
    }

    method Prefetch() returns (ok: bool)
      requires Wired() && !broken && prefix == [] && Next() == 0
      modifies this`at, this`n, this`pending, this`fetched, this`broken, this`prefix, data, source, account
      ensures Wired() && ok == !broken
      ensures ok ==> |prefix| == Next() && prefix == (if |all| <= 4 then all else all[..4])
      ensures ok ==> Billed(old(account.usage), old(fetched))
      ensures Undisturbed() ==> ok
    {
      hide Wired;
      hide Undisturbed;
      hide Detect;
      while |prefix| < 4
        invariant Wired() && !broken && |prefix| == Next() <= 4 && prefix == all[..|prefix|]
        invariant Billed(old(account.usage), old(fetched))
        decreases 4 - |prefix|
      {
        var b := Byte();
        if b.Failed? {
          return false;
        }
        if b.EndOfInput? {
          break;
        }
        prefix := prefix + [b.value];
      }
      return true;
    }

    /** The signature in the prefix. */
    method Recognize()
      requires encoding == Utf8 && !bom && prefixAt == 0
      modifies this`bom, this`encoding, this`prefixAt, this`wide, this`littleEndian, this`rawOffset, this`position
      ensures Detected(encoding, bom, prefixAt) == Detect(prefix)
      ensures wide == Wide(encoding) && littleEndian == (encoding == Utf16LE)
      ensures rawOffset == prefixAt && position == old(position).(offset := prefixAt)
    {
      if |prefix| >= 3 && prefix[0] == 239 && prefix[1] == 187 && prefix[2] == 191 {
        bom, prefixAt := true, 3;
      } else if |prefix| >= 2 && prefix[0] == 254 && prefix[1] == 255 {
        bom, encoding, prefixAt := true, Utf16BE, 2;
      } else if |prefix| >= 2 && prefix[0] == 255 && prefix[1] == 254 {
        bom, encoding, prefixAt := true, Utf16LE, 2;
      } else if |prefix| >= 4 && prefix[0] == 0 && prefix[1] == 0x3C && prefix[2] == 0 && prefix[3] == 0x3F {
        encoding := Utf16BE;
      } else if |prefix| >= 4 && prefix[0] == 0x3C && prefix[1] == 0 && prefix[2] == 0x3F && prefix[3] == 0 {
        encoding := Utf16LE;
      }
      wide, littleEndian := Wide(encoding), encoding == Utf16LE;
      rawOffset := prefixAt;
      position := position.(offset := rawOffset);
    }

    // Characters

    method DecodeWide(first: byte, ghost start: nat) returns (out: Fetch<Rune>)
      requires Synced() && !broken && Wide(encoding)
      requires start < |all| && all[start] == first && rawOffset == start + 1
      modifies this`at, this`n, this`pending, this`fetched, this`broken, this`prefixAt, this`rawOffset, data, source, account
      ensures Wired() && (broken <==> out.Failed? || out.Malformed?) && !out.EndOfInput?
      ensures !broken ==> Synced() && Billed(old(account.usage), old(fetched))
      ensures out.Got? ==> rawOffset > start && RawUtf16(encoding, all, start) == Raw(out.value, rawOffset - start)
      ensures out.Malformed? ==> RawUtf16(encoding, all, start) == Bad
      ensures out.Got? && old(Buffering(1)) && IsAscii(first, old(data[at])) ==>
                out == Got(old(Join16(first, data[at]))) && StateOf() == Stepped(old(StateOf()), 1)
      ensures Undisturbed() ==> !out.Failed?
    {
      hide Wired;
      var second := EncodedByte();
      if !second.Got? {
        broken := true;
        return if second.EndOfInput? then Malformed else Failed;
      }
      var v := Join16(first, second.value);
      if 0xD800 <= v <= 0xDBFF {
        out := DecodePair(v, start);
        return;
      }
      if 0xDC00 <= v <= 0xDFFF {
        broken := true;
        return Malformed;
      }
      return Got(v);
    }

    method DecodePair(high: nat, ghost start: nat) returns (out: Fetch<Rune>)
      requires Synced() && !broken && Wide(encoding)
      requires start + 2 <= |all| && CodeUnit(encoding, all, start) == high && rawOffset == start + 2
      requires 0xD800 <= high <= 0xDBFF
      modifies this`at, this`n, this`pending, this`fetched, this`broken, this`prefixAt, this`rawOffset, data, source, account
      ensures Wired() && (broken <==> out.Failed? || out.Malformed?) && !out.EndOfInput?
      ensures !broken ==> Synced() && Billed(old(account.usage), old(fetched))
      ensures out.Got? ==> rawOffset > start && RawUtf16(encoding, all, start) == Raw(out.value, rawOffset - start)
      ensures out.Got? ==> out.value >= 0x10000
      ensures out.Malformed? ==> RawUtf16(encoding, all, start) == Bad
      ensures Undisturbed() ==> !out.Failed?
    {
      hide Wired;
      var a := EncodedByte();
      if !a.Got? {
        broken := true;
        return if a.EndOfInput? then Malformed else Failed;
      }
      var z := EncodedByte();
      if !z.Got? {
        broken := true;
        return if z.EndOfInput? then Malformed else Failed;
      }
      var low := Join16(a.value, z.value);
      if low < 0xDC00 || low > 0xDFFF {
        broken := true;
        return Malformed;
      }
      return Got(0x10000 + (high - 0xD800) * 0x400 + (low - 0xDC00));
    }

    function Join16(first: byte, second: byte): nat
      reads this
    {
      if encoding == Utf16LE then first + 0x100 * (second as int) else 0x100 * (first as int) + second
    }

    /** The pair is one ASCII character that needs no line-end treatment. */
    predicate IsAscii(first: byte, second: byte)
      reads this
    {
      32 <= Join16(first, second) < 128
    }

    method DecodeNarrow(first: byte, ghost start: nat) returns (out: Fetch<Rune>)
      requires Synced() && !broken && encoding == Utf8
      requires start < |all| && all[start] == first && rawOffset == start + 1
      modifies this`at, this`n, this`pending, this`fetched, this`broken, this`prefixAt, this`rawOffset, data, source, account
      ensures Wired() && (broken <==> out.Failed? || out.Malformed?) && !out.EndOfInput?
      ensures !broken ==> Synced() && Billed(old(account.usage), old(fetched))
      ensures out.Got? ==> rawOffset > start && RawUtf8(all, start) == Raw(out.value, rawOffset - start)
      ensures out.Malformed? ==> RawUtf8(all, start) == Bad
      ensures first < 128 ==> out == Got(first) && StateOf() == old(StateOf())
      ensures Undisturbed() ==> !out.Failed?
    {
      hide Wired;
      hide DecodeRune;
      hide FullRune;
      hide StateOf;
      if first < 128 {
        assert all[start..] == [first] + all[rawOffset..];
        AsciiRune(first, all[rawOffset..]);
        return Got(first);
      }
      var bytes := [first];
      assert all[start..start + 1] == bytes;
      while !FullRune(bytes) && |bytes| < 4
        invariant Synced() && !broken && 0 < |bytes| <= 4 && rawOffset == start + |bytes| && bytes == all[start..rawOffset]
        invariant Billed(old(account.usage), old(fetched))
        invariant |bytes| == 1 || !FullRune(bytes[..|bytes| - 1])
        decreases 4 - |bytes|
      {
        ghost var before := bytes;
        var v := EncodedByte();
        if !v.Got? {
          broken := true;
          if v.EndOfInput? {
            assert bytes == all[start..];
            ShortIsError(bytes);
            return Malformed;
          }
          return Failed;
        }
        bytes := bytes + [v.value];
        assert bytes[..|bytes| - 1] == before;
        OneMore(all, start, rawOffset - 1);
      }
      assert all[start..] == bytes + all[rawOffset..];
      if !FullRune(bytes) {
        ShortIsError(bytes);
      }
      FirstFullRune(bytes, all[rawOffset..]);
      var d := DecodeRune(bytes);
      if d == Decoded(RUNE_ERROR, 1) {
        broken := true;
        return Malformed;
      }
      return Got(d.r);
    }

    /** Nothing is decoded ahead and the next `k` bytes are in the buffer. */
    predicate Plainly(k: nat)
      reads this
    {
      initialized && cached == Nothing && rawCached == Nothing && !rawEnd && Buffering(k)
    }

    method RawRune(ghost start: nat) returns (out: Fetch<RawUnit>)
      requires RawReady(start) && !broken
      modifies this`at, this`n, this`pending, this`fetched, this`broken, this`prefixAt, this`rawOffset, this`rawCached, data, source, account
      ensures broken <==> out.Failed? || out.Malformed?
      ensures !broken ==> Billed(old(account.usage), old(fetched)) && rawCached == Nothing
      ensures out.Got? ==> out.value.start == start < out.value.end && RawReady(out.value.end) && !rawEnd
      ensures out.Got? ==> RawAt(encoding, all, start) == Raw(out.value.r, out.value.end - start)
      ensures out.EndOfInput? ==> RawAt(encoding, all, start) == End && RawReady(start)
      ensures out.Malformed? ==> RawAt(encoding, all, start) == Bad
      ensures !broken && old(Plainly(1) && !wide && at < data.Length && Plain(data[at])) ==>
                out.Got? && out.value.r == old(data[at]) && out.value.end == start + 1 && StateOf() == Stepped(old(StateOf()), 1)
      ensures !broken && old(WideReady()) ==>
                out.Got? && out.value.r == old(Join16(data[at], data[at + 1])) && out.value.end == start + 2 && StateOf() == Stepped(old(StateOf()), 2)
      ensures Undisturbed() ==> !out.Failed?
    {
      hide Synced;
      hide RawAt;
      if rawCached.Held? {
        out := Got(rawCached.value);
        rawCached := Nothing;
        return;
      }
      if rawEnd {
        RawAtEnd();
        return EndOfInput;
      }
      var from := rawOffset;
      var r := DecodeOne();
      match r
      case Got(c) => return Got(RawUnit(c, from, rawOffset));
      case EndOfInput => return EndOfInput;
      case Malformed => return Malformed;
      case Failed => return Failed;
    }

    lemma RawAtEnd()
      ensures RawAt(encoding, all, |all|) == End
    {
    }

    method DecodeOne() returns (out: Fetch<Rune>)
      requires Synced() && !broken
      modifies this`at, this`n, this`pending, this`fetched, this`broken, this`prefixAt, this`rawOffset, data, source, account
      ensures broken <==> out.Failed? || out.Malformed?
      ensures !broken ==> Synced() && Billed(old(account.usage), old(fetched))
      ensures out.Got? ==> rawOffset > old(rawOffset) && RawAt(encoding, all, old(rawOffset)) == Raw(out.value, rawOffset - old(rawOffset))
      ensures out.EndOfInput? ==> RawAt(encoding, all, old(rawOffset)) == End && rawOffset == old(rawOffset)
      ensures out.Malformed? ==> RawAt(encoding, all, old(rawOffset)) == Bad
      ensures !broken && old(Buffering(1) && !Wide(encoding) && at < data.Length && Plain(data[at])) ==>
                out == Got(old(data[at])) && StateOf() == Stepped(old(StateOf()), 1)
      ensures !broken && old(Buffering(2) && Wide(encoding) && n <= data.Length && IsAscii(data[at], data[at + 1])) ==>
                out == Got(old(Join16(data[at], data[at + 1]))) && StateOf() == Stepped(old(StateOf()), 2)
      ensures Undisturbed() ==> !out.Failed?
    {
      hide Synced;
      hide Wired;
      hide DecodeRune;
      hide RawUtf16;
      hide RawUtf8;
      hide Cost;
      ghost var start := rawOffset;
      var b := EncodedByte();
      if !b.Got? {
        return if b.EndOfInput? then EndOfInput else Failed;
      }
      ghost var first := fetched;
      if encoding == Latin1 {
        out := Got(b.value);
      } else if encoding == Utf8 {
        out := DecodeNarrow(b.value, start);
      } else {
        out := DecodeWide(b.value, start);
      }
      if !broken {
        CostTwice(old(account.usage), first - old(fetched), fetched - first);
      }
      if out.Got? && !IsXmlChar(out.value) {
        broken := true;
        return Malformed;
      }
    }

    /** Where the UTF-16 fast path applies. */
    predicate WideReady()
      reads this, data
    {
      wide && Plainly(2) && n <= data.Length && IsAscii(data[at], data[at + 1])
    }

    // Units

    /** The general path of a lookahead: decode, and after a CR look for its LF. */
    method PeekGeneral() returns (out: Fetch<Scanned>)
      requires Valid() && initialized && cached == Nothing
      modifies this`at, this`n, this`pending, this`fetched, this`broken, this`prefixAt, this`rawOffset, this`rawCached, this`rawEnd, this`cached, data, source, account
      ensures broken <==> out.Failed? || out.Malformed?
      ensures !broken ==> Valid() && Billed(old(account.usage), old(fetched))
      ensures out.Got? ==> cached == Held(out.value)
      ensures out.EndOfInput? ==> UnitAt(encoding, all, position.offset) == End && cached == Nothing
      ensures out.Malformed? ==> UnitAt(encoding, all, position.offset) == Bad
      ensures !broken && old(Plainly(1) && !wide && at < data.Length && Plain(data[at])) ==> StateOf() == PlainStep(old(StateOf()))
      ensures !broken && old(WideReady()) ==> StateOf() == WideStep(old(StateOf()), old(Join16(data[at], data[at + 1])))
      ensures Undisturbed() ==> !out.Failed?
    {
      hide RawReady;
      hide UnitAt;
      hide Advance;
      var unit := DecodeUnit();
      if !unit.Got? {
        return if unit.EndOfInput? then EndOfInput else if unit.Malformed? then Malformed else Failed;
      }
      cached := Held(Scanned(unit.value.r, position, Advance(position, unit.value.r, unit.value.end)));
      return Got(cached.value);
    }

    method DecodeUnit() returns (out: Fetch<RawUnit>)
      requires RawReady(position.offset) && !broken
      modifies this`at, this`n, this`pending, this`fetched, this`broken, this`prefixAt, this`rawOffset, this`rawCached, this`rawEnd, data, source, account
      ensures broken <==> out.Failed? || out.Malformed?
      ensures !broken ==> Billed(old(account.usage), old(fetched))
      ensures out.Got? ==> out.value.start == position.offset < out.value.end && RawReady(out.value.end)
      ensures out.Got? ==> UnitAt(encoding, all, position.offset) == Raw(out.value.r, out.value.end - position.offset)
      ensures out.EndOfInput? ==> UnitAt(encoding, all, position.offset) == End && RawReady(position.offset)
      ensures out.Malformed? ==> UnitAt(encoding, all, position.offset) == Bad
      ensures !broken && old(Plainly(1) && !wide && at < data.Length && Plain(data[at])) ==>
                out.Got? && out.value.r == old(data[at]) && out.value.end == position.offset + 1 && StateOf() == Stepped(old(StateOf()), 1)
      ensures !broken && old(WideReady()) ==>
                out.Got? && out.value.r == old(Join16(data[at], data[at + 1])) && out.value.end == position.offset + 2 && StateOf() == Stepped(old(StateOf()), 2)
      ensures Undisturbed() ==> !out.Failed?
    {
      hide RawAt;
      hide RawReady;
      hide StateOf;
      hide Plainly;
      var first := RawRune(position.offset);
      if !first.Got? || first.value.r != CR {
        return first;
      }
      var end := AfterReturn(position.offset, first.value.end);
      if !end.Got? {
        return if end.Malformed? then Malformed else Failed;
      }
      return Got(RawUnit(LF, position.offset, end.value));
    }

    /** Where the line break that began with a CR at `start` ends. */
    method AfterReturn(ghost start: nat, end: nat) returns (out: Fetch<nat>)
      requires RawReady(end) && !broken && rawCached == Nothing && !rawEnd
      requires start < end && RawAt(encoding, all, start) == Raw(CR, end - start)
      modifies this`at, this`n, this`pending, this`fetched, this`broken, this`prefixAt, this`rawOffset, this`rawCached, this`rawEnd, data, source, account
      ensures (broken <==> out.Failed? || out.Malformed?) && !out.EndOfInput?
      ensures !broken ==> Billed(old(account.usage), old(fetched))
      ensures out.Got? ==> out.value > start && RawReady(out.value) && UnitAt(encoding, all, start) == Raw(LF, out.value - start)
      ensures out.Malformed? ==> UnitAt(encoding, all, start) == Bad
      ensures Undisturbed() ==> !out.Failed?
    {
      hide RawAt;
      hide Synced;
      hide Wired;
      hide StateOf;
      hide WideReady;
      hide Plainly;
      var next := RawRune(end);
      match next
      case Failed => return Failed;
      case Malformed => return Malformed;
      case EndOfInput =>
        rawEnd := true;
        EndIsLast(end);
        return Got(end);
      case Got(u) =>
        if u.r == LF {
          return Got(u.end);
        }
        rawCached := Held(u);
        return Got(end);
    }

    lemma EndIsLast(start: nat)
      requires start <= |all|
      ensures RawAt(encoding, all, start) == End <==> start == |all|
    {
    }

    /** Buffered UTF-16 ASCII, without decoding or a look for line ends. */
    method PeekWide() returns (out: Fetch<Scanned>)
      requires Valid() && WideReady()
      modifies this`cached, this`at, this`rawOffset
      ensures Valid() && out.Got? && cached == Held(out.value)
      ensures StateOf() == WideStep(old(StateOf()), old(Join16(data[at], data[at + 1])))
    {
      hide UnitAt;
      hide Advance;
      hide RawAt;
      hide Synced;
      hide Wired;
      BufferedUnit();
      var value := if littleEndian then data[at] else data[at + 1];
      SkipBuffered(2);
      cached := Held(Scanned(value, position, Advance(position, value, position.offset + 2)));
      return Got(cached.value);
    }

    /** The buffered pair is the unit of the text at the current position. */
    lemma BufferedUnit()
      requires Valid() && WideReady()
      ensures position.offset == rawOffset && rawOffset + 2 <= |all|
      ensures UnitAt(encoding, all, rawOffset) == Raw(Join16(data[at], data[at + 1]), 2)
      ensures Join16(data[at], data[at + 1]) == if littleEndian then data[at] else data[at + 1]
    {
      hide UnitAt;
      hide RawAt;
      BufferedBytes(2);
      var pair := data[at..at + 2];
      assert pair[0] == data[at] == all[rawOffset] && pair[1] == data[at + 1] == all[rawOffset + 1];
      WideAscii(encoding, all, rawOffset);
    }

    /** Bytes of the buffer are passed over. */
    method SkipBuffered(k: nat)
      requires Synced() && Buffering(k)
      modifies this`at, this`rawOffset
      ensures Synced() && at == old(at) + k && rawOffset == old(rawOffset) + k
    {
      at, rawOffset := at + k, rawOffset + k;
    }

    method Peek() returns (out: Fetch<Scanned>)
      requires Valid()
      modifies this, data, source, account
      ensures broken <==> out.Failed? || out.Malformed?
      ensures !broken ==> Valid() && initialized && Billed(old(account.usage), old(fetched))
      ensures !broken ==> position == old(Here()) && encoding == old(Coding())
      ensures out.Got? ==> cached == Held(out.value)
      ensures out.EndOfInput? ==> UnitAt(old(Coding()), all, old(Here()).offset) == End && cached == Nothing
      ensures out.Malformed? ==> UnitAt(old(Coding()), all, old(Here()).offset) == Bad
      ensures !broken && old(Plainly(1) && !wide && at < data.Length && Plain(data[at])) ==> StateOf() == PlainStep(old(StateOf()))
      ensures Undisturbed() ==> !out.Failed?
    {
      hide ScannedAt;
      hide Advance;
      hide PlainStep;
      hide Wired;
      hide Synced;
      hide RawReady;
      hide UnitAt;
      hide Detect;
      var admitted := account.Admit();
      if !admitted {
        broken := true;
        return Failed;
      }
      if cached.Held? {
        return Got(cached.value);
      }
      if wide && rawCached == Nothing && !rawEnd && prefixAt == |prefix| && at + 1 < n {
        var value, padding := data[at], data[at + 1];
        if !littleEndian {
          value, padding := padding, value;
        }
        if padding == 0 && 32 <= value < 128 {
          out := PeekWide();
          return;
        }
      }
      var ok := Initialize();
      if !ok {
        return Failed;
      }
      out := PeekGeneral();
    }

    method Take() returns (out: Fetch<Scanned>)
      requires Valid()
      modifies this, data, source, account
      ensures broken <==> out.Failed? || out.Malformed?
      ensures !broken ==> Valid() && initialized && Billed(old(account.usage), old(fetched)) && encoding == old(Coding())
      ensures out.Got? ==> UnitAt(old(Coding()), all, old(Here()).offset).Raw?
                           && out.value == ScannedAt(old(Coding()), all, old(Here()))
                           && position == out.value.end && cached == Nothing
      ensures out.EndOfInput? ==> UnitAt(old(Coding()), all, old(Here()).offset) == End && position == old(Here())
      ensures out.Malformed? ==> UnitAt(old(Coding()), all, old(Here()).offset) == Bad
      ensures !broken && old(Plainly(1) && !wide && at < data.Length && Plain(data[at])) ==>
                out.Got? && out.value.r == old(data[at]) && StateOf() == SpanStep(old(StateOf()), 1)
      ensures Undisturbed() ==> !out.Failed?
    {
      hide UnitAt;
      hide Detect;
      hide RawReady;
      hide SpanStep;
      hide ScannedAt;
      hide Wired;
      if cached.Held? {
        var admitted := account.Admit();
        if !admitted {
          broken := true;
          return Failed;
        }
        out := Got(cached.value);
        position, cached := cached.value.end, Nothing;
        return;
      }
      if Plainly(1) && at < data.Length {
        TakenIsSpan(StateOf());
      }
      out := Peek();
      if out.Got? {
        position, cached := out.value.end, Nothing;
      }
    }

    /** Puts back the unit that was just taken. */
    method PutBack(u: Scanned)
      requires Valid() && initialized && cached == Nothing && u.end == position && u.start.offset <= |all|
      requires UnitAt(encoding, all, u.start.offset).Raw? && u == ScannedAt(encoding, all, u.start)
      modifies this`cached, this`position
      ensures Valid() && position == u.start && cached == Held(u)
    {
      hide UnitAt;
      hide RawReady;
      cached, position := Held(u), u.start;
    }

    /** The encoding an XML declaration names, right after its last character was taken.  A
        declaration that contradicts the bytes is refused; only a text without a signature can
        switch, and only from UTF-8 to Latin-1. */
    method SelectEncoding(declared: Charset) returns (verdict: Verdict)
      requires Valid() && initialized && encoding != Latin1 && cached == Nothing && rawCached == Nothing
      modifies this`encoding
      ensures Valid()
      ensures verdict == Accepted <==> Compatible(old(encoding), bom, declared)
      ensures verdict == Unsupported <==> old(encoding) == Utf8 && !bom && declared == OtherCharset
      ensures encoding == if verdict == Accepted && declared == Latin1Charset then Latin1 else old(encoding)
    {
      if Wide(encoding) {
        var same := declared == if encoding == Utf16LE then Utf16LECharset else Utf16BECharset;
        if !bom {
          return if same then Accepted else Mismatch;
        }
        return if declared == Unstated || declared == Utf16Charset || same then Accepted else Mismatch;
      }
      if declared == Unstated || declared == Utf8Charset {
        return Accepted;
      }
      if bom {
        return Mismatch;
      }
      match declared
      case Latin1Charset =>
        encoding := Latin1;
        return Accepted;
      case OtherCharset => return Unsupported;
      case _ => return Mismatch;
    }

    // The ASCII fast path

    /** The longest run of buffered bytes that the mode admits. */
    method AsciiSpan(mode: AsciiMode, quote: byte, maximum: nat) returns (k: nat)
      requires Valid()
      ensures k > 0 ==> Plainly(k) && !wide && k <= maximum
      ensures at + k <= data.Length && AllPlain(data[at..at + k])
      ensures forall i :: at <= i < at + k ==> Spans(mode, quote, data[i])
      ensures Plainly(1) && !wide && k < maximum && at + k < n ==> !Spans(mode, quote, data[at + k])
    {
      hide RawAt;
      hide UnitAt;
      k := 0;
      if !initialized || cached.Held? || rawCached.Held? || rawEnd || prefixAt < |prefix| || wide {
        return;
      }
      while k < maximum && at + k < n && Spans(mode, quote, data[at + k])
        invariant at + k <= n && k <= maximum
        invariant forall i :: at <= i < at + k ==> Spans(mode, quote, data[i])
      {
        k := k + 1;
      }
    }

    /** The buffered bytes are those of the source at the current position. */
    lemma BufferedBytes(k: nat)
      requires Valid() && Plainly(k)
      ensures position.offset == rawOffset && at + k <= data.Length && rawOffset + k <= |all|
      ensures data[at..at + k] == all[rawOffset..rawOffset + k]
    {
      hide RawAt;
      hide UnitAt;
      var buffered, expected := data[at..at + k], all[rawOffset..rawOffset + k];
      forall i | 0 <= i < k
        ensures buffered[i] == expected[i]
      {
        assert data[at + i] == all[fetched - n + (at + i)];
      }
    }

    method ConsumeAscii(k: nat)
      requires Valid() && Plainly(k) && !wide && k > 0
      requires AllPlain(data[at..at + k])
      modifies this`at, this`rawOffset, this`position
      ensures Valid() && StateOf() == SpanStep(old(StateOf()), k)
    {
      hide RawAt;
      hide UnitAt;
      hide AdvanceAll;
      hide Synced;
      hide Wired;
      BufferedBytes(k);
      var from := at;
      SkipBuffered(k);
      AdvanceOver(from, k, rawOffset);
    }

    /** The position behind `k` bytes of the buffer. */
    method AdvanceOver(from: nat, k: nat, offset: nat)
      requires from + k <= data.Length
      modifies this`position
      ensures position == Moved(old(position), data[from..from + k], offset)
    {
      hide Advance;
      hide AdvanceAll;
      ghost var start := position;
      MovedStep(start, [], 0, 0, 0);
      assert data[from..from] == [];
      position := position.(offset := offset);
      for i := 0 to k
        invariant position == Moved(start, data[from..from + i], offset)
      {
        MovedStep(start, data[from..from + i], data[from + i], offset, offset);
        assert data[from..from + i] + [data[from + i]] == data[from..from + i + 1];
        position := Advance(position, data[from + i], offset);
      }
    }

    /** One plain byte, on the general path. */
    method TakePlain() returns (out: Fetch<Rune>)
      requires Valid() && Plainly(1) && !wide && at < data.Length && Plain(data[at])
      modifies this, data, source, account
      ensures out.Got? || out.Failed?
      ensures out.Got? ==> Valid() && out.value == old(data[at]) && StateOf() == SpanStep(old(StateOf()), 1)
      ensures Undisturbed() ==> out.Got?
    {
      hide UnitAt;
      hide Detect;
      hide SpanStep;
      hide ScannedAt;
      assert data[at] == all[rawOffset];
      PlainUnit(encoding, all, rawOffset);
      var u := Take();
      return if u.Got? then Got(u.value.r) else Failed;
    }

    /** The same bytes, one unit at a time. */
    method TakeSpan(k: nat) returns (out: Fetch<seq<Rune>>)
      requires Valid() && Plainly(k) && !wide && k > 0
      requires AllPlain(data[at..at + k])
      modifies this, data, source, account
      ensures out.Got? || out.Failed?
      ensures out.Got? ==> Valid() && out.value == old(data[at..at + k]) && StateOf() == SpanStep(old(StateOf()), k)
      ensures Undisturbed() ==> out.Got?
    {
      hide RawReady;
      hide UnitAt;
      hide Detect;
      hide SpanStep;
      hide ScannedAt;
      var taken: seq<Rune> := [];
      ghost var s := StateOf();
      SpanNone(s);
      while |taken| < k
        invariant |taken| <= k && Valid()
        invariant StateOf() == SpanStep(s, |taken|) && taken == s.data[s.at..s.at + |taken|]
        decreases k - |taken|
      {
        SpanMore(s, |taken|);
        assert Plain(s.data[s.at..s.at + k][|taken|]);
        assert data[at] == StateOf().data[at];
        var u := TakePlain();
        if !u.Got? {
          return Failed;
        }
        taken := taken + [u.value];
      }
      return Got(taken);
    }

    // The whole text

    /** Everything from the current position on, up to the end or the first error. */
    method TakeAll() returns (units: seq<Scanned>, last: Fetch<()>)
      requires Valid()
      modifies this, data, source, account
      ensures !last.Got?
      ensures units <= Scan(old(Coding()), all, old(Here()))
      ensures !last.Failed? ==> units == Scan(old(Coding()), all, old(Here()))
      ensures !last.Failed? ==> (last.EndOfInput? <==> Clean(old(Coding()), all, old(Here()).offset))
      ensures Undisturbed() ==> !last.Failed?
    {
      hide RawReady;
      hide Detect;
      hide UnitAt;
      hide Clean;
      hide StateOf;
      hide Wired;
      hide Billed;
      units := [];
      while true
        invariant Valid() && Coding() == old(Coding())
        invariant Scan(old(Coding()), all, old(Here())) == units + Scan(Coding(), all, Here())
        invariant Clean(old(Coding()), all, old(Here()).offset) == Clean(Coding(), all, Here().offset)
        decreases |all| - Here().offset
      {
        CleanUnit(Coding(), all, Here().offset);
        var u := Take();
        match u
        case Got(unit) => units := units + [unit];
        case EndOfInput => return units, EndOfInput;
        case Malformed => return units, Malformed;
        case Failed => return units, Failed;
      }
    }
  }

  /** For every content and every way of splitting it into reads, the units taken are the decoded
      and then normalized characters after the signature, up to the first error. */
  method ReadText(source: ByteSource, account: Account, owner: Owner) returns (units: seq<Scanned>, last: Fetch<()>)
    requires source.reliable && account.ample
    modifies source, account
    ensures var all := old(source.rest);
            var d := Detect(all);
            var clean := Clean(d.encoding, all, d.skip);
            && last == (if clean then EndOfInput else Malformed)
            && units == Scan(d.encoding, all, Position(d.skip, 1, 1))
            && Runes(units) == Normalize(Delivered(clean, RawRunes(d.encoding, all, d.skip)))
  {
    hide Detect;
    hide Clean;
    hide Scan;
    hide Normalize;
    hide Delivered;
    hide RawRunes;
    ghost var all := source.rest;
    ghost var d := Detect(all);
    var cursor := new Cursor(source, account, owner);
    units, last := cursor.TakeAll();
    ScanPlaced(d.encoding, all, Position(d.skip, 1, 1));
    DecodeThenNormalize(d.encoding, all, d.skip);
  }
}
