/** The source token reader: the entity stack, the element stack with its namespace table,
    and the buffered bytes it owns on the shared account. */
module TokenReaders {
  import opened Accounts
  import opened Utf8
  import opened Expansion
  import opened EntityFrames
  import opened Namespaces

  const CURSOR_BYTES: nat := 4096 + 512
  const READER_BYTES: nat := 512 + 64 + 256
  const FRAME_BYTES: nat := 512
  const VALUE_SCRATCH: nat := 256
  const NAME_SCRATCH: nat := 64

  datatype ElementFrame = ElementFrame(name: QName, undo: seq<Undo>, retained: nat)

  function SumRetained(elements: seq<ElementFrame>): nat {
    if elements == [] then 0 else SumRetained(elements[..|elements| - 1]) + elements[|elements| - 1].retained
  }

  function Log(elements: seq<ElementFrame>): seq<seq<Undo>> {
    seq(|elements|, i requires 0 <= i < |elements| => elements[i].undo)
  }

  /** Entry depths grow along the stack, and no live entity is entered above the current depth. */
  ghost predicate DepthsNested(entities: seq<EntityFrame>, depth: nat) {
    && (forall i, j :: 0 <= i < j < |entities| ==> entities[i].entryDepth <= entities[j].entryDepth)
    && (forall i :: 0 <= i < |entities| ==> entities[i].entryDepth <= depth)
  }

  /** Moving the reading position changes nothing structural. */
  lemma SameStackStructure(a: seq<EntityFrame>, b: seq<EntityFrame>, depth: nat)
    requires SameStack(a, b)
    ensures Distinct(b) ==> Distinct(a)
    ensures DepthsNested(b, depth) ==> DepthsNested(a, depth)
    ensures Active(a) == Active(b) && Named(a) == Named(b) && InExternalMarkup(a) == InExternalMarkup(b)
    ensures |a| == |b|
    ensures forall i :: 0 <= i < |a| ==> a[i].context == b[i].context && a[i].entryDepth == b[i].entryDepth
  {
    SameStackNames(a, b);
    forall i | 0 <= i < |a|
      ensures a[i] == b[i].(offset := a[i].offset, lookahead := a[i].lookahead)
    {
      if i < |a| - 1 {
        assert a[i] == a[..|a| - 1][i] == b[..|b| - 1][i] == b[i];
      }
    }
  }

  lemma SameStackPrefix(a: seq<EntityFrame>, b: seq<EntityFrame>, pushed: seq<EntityFrame>, owner: nat)
    requires SameStack(a, b) && owner <= |a|
    ensures |a| == |b| && SameStack((a + pushed)[..owner], b[..owner])
  {
    var n := |a| - 1;
    if owner == |a| {
      assert (a + pushed)[..owner] == a && b[..owner] == b;
    } else {
      assert a[..n][..owner] == a[..owner] == (a + pushed)[..owner] && b[..n][..owner] == b[..owner];
    }
  }

  /** The frames above `owner` were entered for a value at the current element depth. */
  ghost predicate ValueFrames(entities: seq<EntityFrame>, owner: nat, depth: nat) {
    && owner <= |entities|
    && forall i :: owner <= i < |entities| ==>
         entities[i].context == AttributeValue && entities[i].entryDepth == depth
  }

  lemma ValueFramesOwner(entities: seq<EntityFrame>, owner: nat, depth: nat)
    requires ValueFrames(entities, owner, depth)
    ensures owner <= |entities|
  {
  }

  lemma ValueFramesPush(entities: seq<EntityFrame>, frame: EntityFrame, owner: nat, depth: nat)
    requires ValueFrames(entities, owner, depth) && frame.context == AttributeValue && frame.entryDepth == depth
    ensures ValueFrames(entities + [frame], owner, depth)
    ensures owner <= |entities| && (entities + [frame])[..owner] == entities[..owner]
  {
  }

  /** A scan that only moves the reading position keeps everything a value relies on. */
  lemma SameStackValue(a: seq<EntityFrame>, b: seq<EntityFrame>, owner: nat, depth: nat)
    requires SameStack(a, b) && Distinct(b) && DepthsNested(b, depth) && ValueFrames(b, owner, depth)
    ensures Distinct(a) && DepthsNested(a, depth) && ValueFrames(a, owner, depth)
    ensures Named(a) == Named(b) && InExternalMarkup(a[..owner]) == InExternalMarkup(b[..owner])
    ensures |a| == |b| && SameStack(a[..owner], b[..owner])
  {
    SameStackStructure(a, b, depth);
    SameStackPrefix(a, b, [], owner);
    assert a + [] == a;
    SameStackStructure(a[..owner], b[..owner], depth);
  }

  /** `Stopped` is a budget or cancellation; a malformed source is reported with its cause. */
  datatype Outcome<+T> = Value(value: T) | Malformed(why: Failure) | Stopped

  /** A growing byte buffer that starts on borrowed scratch. */
  datatype Builder = Builder(data: seq<byte>, capacity: nat, borrowed: bool) {
    ghost predicate Valid() {
      |data| <= capacity
    }

    function Held(): nat {
      if borrowed then 0 else capacity
    }
  }

  /** The cursor delivers only XML characters. */
  ghost predicate Legible(units: seq<Unit>) {
    forall i :: 0 <= i < |units| && units[i].Char? ==> IsXmlChar(units[i].c)
  }

  predicate PlainAscii(c: Rune, quote: Rune) {
    32 <= c < 128 && c != quote && c != AMPERSAND && c != LESS
  }

  predicate NameAscii(c: Rune) {
    0x61 <= c <= 0x7A || 0x41 <= c <= 0x5A || 0x30 <= c <= 0x39 || c == 0x5F || c == 0x3A || c == 0x2D || c == 0x2E
  }

  /** The runs that are taken at once from buffered bytes. */
  datatype SpanMode = NameSpan | TextSpan | QuotedSpan(quote: Rune) | SpaceSpan

  predicate Admits(mode: SpanMode, c: Rune) {
    match mode
    case NameSpan => NameAscii(c)
    case TextSpan => (32 <= c < 128 || c == 9 || c == 10) && c != LESS && c != AMPERSAND && c != 0x5D && c != 0x3E
    case QuotedSpan(quote) => PlainAscii(c, quote)
    case SpaceSpan => c == SPACE || c == 9 || c == 10
  }

  lemma NameAsciiNames()
    ensures forall c :: NameAscii(c) ==> IsNameChar(c)
  {
  }

  class TokenReader {
    const account: Account
    const store: Store
    const maxDepth: nat

    var physical: seq<Unit>       // what the byte cursor has still to deliver
    var entities: seq<EntityFrame>
    var elements: seq<ElementFrame>
    var namespaces: Table
    var tableMade: bool
    var needEnd: bool
    var rootClosed: bool
    var tokenOwned: nat
    var retained: nat
    var mapOwned: nat
    var failed: bool
    var closed: bool
    ghost var scopes: seq<Scope>  // the declarations of the open elements

    // Ownership

    ghost function Owned(): nat
      reads this
    {
      if closed then 0 else CURSOR_BYTES + tokenOwned + retained + mapOwned
    }

    /** Live bytes on the account that belong to someone else. */
    ghost function Others(): int
      reads this, account
    {
      account.usage.buffered - Owned()
    }

    ghost predicate Owning()
      reads this, account
    {
      && Others() >= 0
      && (!closed ==> retained >= READER_BYTES + SumRetained(elements) + FRAME_BYTES * |entities|)
    }

    // Structure

    ghost predicate Structured()
      reads this
    {
      && Readable(entities) && Legible(physical)
      && Distinct(entities)
      && Named(entities) <= MAX_ENTITIES
      && DepthsNested(entities, |elements|)
      && (needEnd ==> elements != [])
      && (needEnd && entities != [] ==> entities[|entities| - 1].entryDepth < |elements|)
    }

    ghost predicate Scoped()
      reads this
    {
      !failed && !closed ==> Agrees(namespaces, Log(elements), scopes)
    }

    ghost predicate Valid()
      reads this, account
    {
      Owning() && Structured() && Scoped()
    }

    ghost function Remaining(): seq<Unit>
      requires Readable(entities)
      reads this
    {
      RemainingOf(entities, physical)
    }

    constructor (account: Account, store: Store, maxDepth: nat, input: seq<Unit>)
      requires Legible(input)
      requires account.ample || account.usage.buffered + CURSOR_BYTES + READER_BYTES <= account.limits.buffered
      modifies account
      ensures Valid() && !closed && !failed && !rootClosed
      ensures this.account == account && this.store == store && this.maxDepth == maxDepth
      ensures physical == input && entities == [] && elements == [] && scopes == []
      ensures Others() == old(account.usage.buffered)
    {
      this.account, this.store, this.maxDepth, physical := account, store, maxDepth, input;
      entities, elements, namespaces, tableMade := [], [], map[], false;
      needEnd, rootClosed, failed, closed := false, false, false, false;
      tokenOwned, retained, mapOwned, scopes := 0, READER_BYTES, 0, [];
      new;
      var _ := account.Charge(Buffered, CURSOR_BYTES);
      var _ := account.Charge(Buffered, READER_BYTES);
    }

    /** Everything the reader ever charged and has not returned goes back at once, whatever
        state the reader is in; a second call does nothing. */
    method Close()
      requires Owning()
      modifies this, account
      ensures closed && Owned() == 0 && Others() == old(Others()) >= 0
    {
      if !closed {
        closed := true;
        var _ := account.Release(CURSOR_BYTES);
        var _ := account.Release(tokenOwned + retained + mapOwned);
        tokenOwned, retained, mapOwned := 0, 0, 0;
        elements, entities, namespaces := [], [], map[];
      }
    }

    method Reserve(n: nat) returns (ok: bool)
      modifies account
      ensures account.usage.buffered == old(account.usage.buffered) + (if ok then n else 0)
      ensures account.ample ==> ok
    {
      ok := account.Charge(Buffered, n);
    }

    method TokenReserve(n: nat) returns (ok: bool)
      modifies this`tokenOwned, account
      ensures tokenOwned == old(tokenOwned) + (if ok then n else 0)
      ensures !closed ==> Others() == old(Others())
      ensures account.ample ==> ok
    {
      ok := Reserve(n);
      if ok {
        tokenOwned := tokenOwned + n;
      }
    }

    method ReleaseToken()
      requires Owning() && !closed
      modifies this`tokenOwned, account
      ensures tokenOwned == 0 && Others() == old(Others())
    {
      var _ := account.Release(tokenOwned);
      tokenOwned := 0;
    }

    /** Part of what is owned for the current token goes back early. */
    method ReturnToken(n: nat)
      requires Owning() && !closed && n <= tokenOwned
      modifies this`tokenOwned, account
      ensures tokenOwned == old(tokenOwned) - n && Others() == old(Others())
    {
      var _ := account.Release(n);
      tokenOwned := tokenOwned - n;
    }

    // Builders

    method Grow(b: Builder, n: nat) returns (ok: bool, b': Builder)
      requires Owning() && !closed && b.Valid() && b.Held() <= tokenOwned && |b.data| <= n
      modifies this`tokenOwned, account
      ensures Owning() && Others() == old(Others())
      ensures b'.Valid() && b'.data == b.data
      ensures tokenOwned == old(tokenOwned) + b'.Held() - b.Held()
      ensures ok ==> n <= b'.capacity
      ensures account.ample ==> ok
    {
      b' := b;
      if !account.Fits(n) {
        return false, b;
      }
      if n > b.capacity {
        var capacity := b.capacity * 2;
        if capacity < 32 { capacity := 32; }
        if capacity < n { capacity := n; }
        if !account.Fits(capacity) { capacity := account.maxScalar; }
        var admitted := TokenReserve(capacity);
        if !admitted {
          return false, b;
        }
        if !b.borrowed {
          var _ := account.Release(b.capacity);
          tokenOwned := tokenOwned - b.capacity;
        }
        b' := Builder(b.data, capacity, false);
      }
      ok := true;
    }

    method Append(b: Builder, c: Rune) returns (ok: bool, b': Builder)
      requires Owning() && !closed && b.Valid() && b.Held() <= tokenOwned && IsScalar(c)
      modifies this`tokenOwned, account
      ensures Owning() && Others() == old(Others())
      ensures b'.Valid()
      ensures tokenOwned == old(tokenOwned) + b'.Held() - b.Held()
      ensures ok ==> b'.data == b.data + EncodeRune(c)
      ensures account.ample ==> ok
    {
      ok, b' := Grow(b, |b.data| + RuneLen(c));
      if ok {
        b' := b'.(data := b'.data + EncodeRune(c));
      }
    }

    // Reading characters

    method Peek() returns (out: Outcome<Rune>)
      requires Readable(entities) && Legible(physical)
      modifies this`entities
      ensures Readable(entities) && SameStack(entities, old(entities)) && Remaining() == old(Remaining())
      ensures entities != [] ==> entities[|entities| - 1].offset == old(entities[|entities| - 1].offset)
      ensures out.Value? ==> Remaining() != [] && Remaining()[0] == Char(out.value) && IsXmlChar(out.value)
      ensures out.Malformed? ==> (Remaining() == [] || Remaining()[0].Illegal?) && out.why == EndOf(Remaining())
      ensures account.ample ==> !out.Stopped?
    {
      hide RemainingAt;
      hide Front;
      hide DecodeRune;
      hide Units;
      var admitted := account.Admit();
      if !admitted {
        return Stopped;
      }
      if entities == [] {
        if physical == [] || physical[0].Illegal? {
          return Malformed(EndOf(physical));
        }
        return Value(physical[0].c);
      }
      var frame := entities[|entities| - 1];
      TakeFront(frame);
      if frame.lookahead.Holding? {
        return Value(frame.lookahead.c);
      }
      if frame.offset == frame.Length() {
        return Malformed(Truncated);
      }
      var front := Front(frame);
      if front.Illegal? {
        return Malformed(IllegalCharacter);
      }
      entities := entities[|entities| - 1 := frame.(lookahead := Holding(front.c))];
      out := Value(front.c);
    }

    method Take() returns (out: Outcome<Rune>)
      requires Readable(entities) && Legible(physical)
      modifies this`entities, this`physical
      ensures Readable(entities) && SameStack(entities, old(entities)) && Legible(physical)
      ensures old(entities) != [] ==> physical == old(physical)
      ensures out.Value? ==>
                && old(Remaining()) != [] && old(Remaining())[0] == Char(out.value) && IsXmlChar(out.value)
                && Remaining() == old(Remaining())[1..] && CanReturn(entities, out.value)
      ensures out.Malformed? ==>
                && Remaining() == old(Remaining())
                && (Remaining() == [] || Remaining()[0].Illegal?) && out.why == EndOf(Remaining())
      ensures account.ample ==> !out.Stopped?
    {
      out := Peek();
      if out.Value? {
        if entities == [] {
          physical := physical[1..];
        } else {
          AdvanceStack(entities, out.value);
          entities := Advanced(entities, out.value);
        }
      }
    }

    method Unread(c: Rune)
      requires Readable(entities) && CanReturn(entities, c) && Legible(physical) && IsXmlChar(c)
      modifies this`entities, this`physical
      ensures Readable(entities) && SameStack(entities, old(entities)) && Legible(physical)
      ensures old(entities) != [] ==> physical == old(physical)
      ensures Remaining() == [Char(c)] + old(Remaining())
    {
      if entities == [] {
        physical := [Char(c)] + physical;
      } else {
        ReturnStack(entities, c);
        entities := Returned(entities, c);
      }
    }

    /** The fast path over buffered bytes: any run of plain characters may be taken at once,
        and the buffer decides how long it is. */
    method AsciiSpan(b: Builder, mode: SpanMode) returns (ok: bool, b': Builder, span: seq<Rune>)
      requires Owning() && !closed && b.Valid() && b.Held() <= tokenOwned && Legible(physical)
      modifies this`physical, this`tokenOwned, account
      ensures Owning() && Others() == old(Others()) && Legible(physical)
      ensures b'.Valid() && tokenOwned == old(tokenOwned) + b'.Held() - b.Held()
      ensures entities != [] ==> span == []
      ensures !ok ==> span == []
      ensures |span| <= |old(physical)| && physical == old(physical)[|span|..]
      ensures forall i :: 0 <= i < |span| ==>
                old(physical)[i] == Char(span[i]) && Admits(mode, span[i])
      ensures ok ==> b'.data == b.data + EncodeAll(span)
      ensures account.ample ==> ok
    {
      hide SumRetained;
      hide EncodeRune;
      span, b' := [], b;
      ok := account.Admit();
      if !ok || entities != [] {
        assert b.data + EncodeAll([]) == b.data;
        return;
      }
      var wanted: nat := *;
      while |span| < wanted && |span| < |physical| && physical[|span|].Char? && Admits(mode, physical[|span|].c)
        invariant |span| <= |physical|
        invariant forall i :: 0 <= i < |span| ==>
                    physical[i] == Char(span[i]) && Admits(mode, span[i])
        decreases |physical| - |span|
      {
        span := span + [physical[|span|].c];
      }
      EncodeAscii(span);
      ok, b' := Grow(b, |b.data| + |span|);
      if ok {
        b' := b'.(data := b'.data + EncodeAll(span));
        physical := physical[|span|..];
      } else {
        span := [];
      }
    }

    /** The same fast path where nothing is kept. */
    method SkipSpaces() returns (ok: bool, count: nat)
      requires Legible(physical)
      modifies this`physical
      ensures Legible(physical) && (entities != [] ==> count == 0)
      ensures count <= |old(physical)| && physical == old(physical)[count..]
      ensures forall i :: 0 <= i < count ==> old(physical)[i].Char? && IsSpace(old(physical)[i].c)
      ensures account.ample ==> ok
    {
      count := 0;
      ok := account.Admit();
      if !ok || entities != [] {
        return;
      }
      var wanted: nat := *;
      while count < wanted && count < |physical| && physical[count].Char? && Admits(SpaceSpan, physical[count].c)
        invariant count <= |physical|
        invariant forall i :: 0 <= i < count ==> physical[i].Char? && IsSpace(physical[i].c)
        decreases |physical| - count
      {
        count := count + 1;
      }
      physical := physical[count..];
    }

    /** Everything a scanning method leaves alone or keeps in order. */
    ghost predicate Scanning()
      reads this, account
    {
      Owning() && !closed && Readable(entities) && Legible(physical)
    }

    /** One round of a name scan: a run of name characters, or the end of the name. */
    method NameRun(b: Builder) returns (out: Outcome<seq<Rune>>, b': Builder)
      requires Scanning() && b.Valid() && b.Held() <= tokenOwned
      modifies this`entities, this`physical, this`tokenOwned, account
      ensures Scanning() && Others() == old(Others()) && SameStack(entities, old(entities))
      ensures old(entities) != [] ==> physical == old(physical)
      ensures b'.Valid() && tokenOwned == old(tokenOwned) + b'.Held() - b.Held()
      ensures out.Value? ==>
                && |out.value| <= |old(Remaining())| && Remaining() == old(Remaining())[|out.value|..]
                && (forall i :: 0 <= i < |out.value| ==>
                      old(Remaining())[i] == Char(out.value[i]) && IsNameChar(out.value[i]))
                && (out.value == [] ==> if Remaining() == [] then entities == [] else
                      Remaining()[0].Char? && !IsNameChar(Remaining()[0].c))
      ensures out.Malformed? ==>
                && out.why == EndOf(old(Remaining()))
                && if old(Remaining()) == [] then entities != [] else old(Remaining())[0].Illegal?
      ensures account.ample ==> !out.Stopped?
    {
      hide RemainingAt;
      hide EncodeRune;
      hide EncodeAll;
      hide IsNameStart;
      hide SumRetained;
      var ok, b1, span := AsciiSpan(b, NameSpan);
      b' := b1;
      if !ok {
        return Stopped, b1;
      }
      if span != [] {
        NameAsciiNames();
        return Value(span), b1;
      }
      var u := Peek();
      if u.Stopped? {
        return Stopped, b1;
      }
      if u.Malformed? {
        return if u.why.Truncated? && entities == [] then Value([]) else Malformed(u.why), b1;
      }
      if !IsNameChar(u.value) {
        return Value([]), b1;
      }
      var taken := Take();
      if !taken.Value? {
        return Stopped, b1;
      }
      ok, b' := Append(b1, u.value);
      out := if ok then Value([u.value]) else Stopped;
    }

    method Name() returns (out: Outcome<Name>)
      requires Scanning()
      modifies this`entities, this`physical, this`tokenOwned, account
      ensures Scanning() && Others() == old(Others()) && tokenOwned >= old(tokenOwned)
      ensures SameStack(entities, old(entities))
      ensures old(entities) != [] ==> physical == old(physical)
      ensures out.Value? ==> ReadsName(old(Remaining()), entities == []) && var n := NameLength(old(Remaining()));
                && out.value == Runes(old(Remaining())[..n]) && Remaining() == old(Remaining())[n..]
      ensures out.Malformed? ==> out.why == NameFailure(old(Remaining())) && !ReadsName(old(Remaining()), entities == [])
      ensures account.ample ==> !out.Stopped?
    {
      hide RemainingAt;
      hide IsNameStart;
      hide IsNameChar;
      hide SumRetained;
      ghost var input := Remaining();
      var first := Peek();
      if !first.Value? {
        return if first.Stopped? then Stopped else Malformed(first.why);
      }
      if !IsNameStart(first.value) {
        return Malformed(BadReference);
      }
      var name: Name := [];
      var b := Builder([], NAME_SCRATCH, true);
      while true
        invariant Scanning() && Others() == old(Others())
        invariant b.Valid() && tokenOwned >= old(tokenOwned) + b.Held()
        invariant SameStack(entities, old(entities))
        invariant old(entities) != [] ==> physical == old(physical)
        invariant |name| <= |input| && Remaining() == input[|name|..]
        invariant forall i :: 0 <= i < |name| ==> input[i] == Char(name[i]) && IsNameChar(name[i])
        decreases |input| - |name|
      {
        var run, b' := NameRun(b);
        b := b';
        if !run.Value? {
          assert |name| == NameLength(input) || run.Stopped?;
          return if run.Stopped? then Stopped else Malformed(run.why);
        }
        if run.value == [] {
          break;
        }
        name := name + run.value;
      }
      assert |name| == NameLength(input);
      assert name == Runes(input[..|name|]);
      var kept := TokenReserve(|b.data|);
      out := if kept then Value(name) else Stopped;
    }

    method ReadCharacterReference() returns (out: Outcome<Rune>)
      requires Scanning()
      modifies this`entities, this`physical
      ensures Readable(entities) && Legible(physical) && SameStack(entities, old(entities))
      ensures old(entities) != [] ==> physical == old(physical)
      ensures Reports(out, CharacterReference(old(Remaining())), Remaining())
      ensures account.ample ==> !out.Stopped?
    {
      hide RemainingAt;
      hide IsXmlChar;
      ghost var input := Remaining();
      out := Take();
      if !out.Value? {
        return;
      }
      assert [Char(out.value)] + Remaining() == input;
      if out.value != 0x78 {
        out := ReadDigits(out.value, 10);
      } else {
        out := Take();
        if out.Value? {
          assert [Char(out.value)] + Remaining() == input[1..];
          out := ReadDigits(out.value, 16);
        }
      }
    }

    /** Digits up to a terminator; `first` has been taken already. */
    method ReadDigits(first: Rune, base: int) returns (out: Outcome<Rune>)
      requires Scanning() && (base == 10 || base == 16)
      modifies this`entities, this`physical
      ensures Readable(entities) && Legible(physical) && SameStack(entities, old(entities))
      ensures old(entities) != [] ==> physical == old(physical)
      ensures Reports(out, Digits([Char(first)] + old(Remaining()), base, 0, false), Remaining())
      ensures account.ample ==> !out.Stopped?
    {
      hide RemainingAt;
      hide IsXmlChar;
      hide Digit;
      ghost var goal := Digits([Char(first)] + Remaining(), base, 0, false);
      var c, value, digits := first, 0, 0;
      while Digit(c, base) >= 0
        invariant Readable(entities) && Legible(physical) && SameStack(entities, old(entities))
        invariant old(entities) != [] ==> physical == old(physical)
        invariant digits >= 0
        invariant goal == Digits([Char(c)] + Remaining(), base, value, digits > 0)
        decreases |Remaining()|
      {
        assert ([Char(c)] + Remaining())[1..] == Remaining();
        var digit := Digit(c, base);
        if value > (0x10FFFF - digit) / base {
          return Malformed(BadReference);
        }
        value, digits := value * base + digit, digits + 1;
        if !account.Fits(digits) {
          return Stopped;
        }
        ghost var before := Remaining();
        out := Take();
        if !out.Value? {
          return;
        }
        assert [Char(out.value)] + Remaining() == before;
        c := out.value;
      }
      assert ([Char(c)] + Remaining())[1..] == Remaining();
      out := if digits == 0 || c != SEMICOLON || !IsXmlChar(value) then Malformed(BadReference) else Value(value);
    }

    method ReadNamedReference() returns (out: Outcome<Referent>)
      requires Scanning()
      modifies this`entities, this`physical, this`tokenOwned, account
      ensures Scanning() && Others() == old(Others()) && tokenOwned >= old(tokenOwned)
      ensures SameStack(entities, old(entities))
      ensures old(entities) != [] ==> physical == old(physical)
      ensures Refers(out, NamedReference(old(Remaining()), old(entities) == []), Remaining())
      ensures account.ample ==> !out.Stopped?
    {
      hide RemainingAt;
      hide IsNameStart;
      hide IsNameChar;
      hide SumRetained;
      hide PREDEFINED;
      ghost var input := Remaining();
      var name := Name();
      if !name.Value? {
        return if name.Stopped? then Stopped else Malformed(name.why);
      }
      assert NameLength(input) == |input| ==> input[..|input|] == input;
      if !IsNCName(name.value) {
        return Malformed(BadReference);
      }
      var end := Take();
      if !end.Value? {
        return if end.Stopped? then Stopped else Malformed(end.why);
      }
      if end.value != SEMICOLON {
        return Malformed(BadReference);
      }
      out := Value(if name.value in PREDEFINED then Character(PREDEFINED[name.value]) else Entity(name.value));
    }

    method ReadReference() returns (out: Outcome<Referent>)
      requires Scanning()
      modifies this`entities, this`physical, this`tokenOwned, account
      ensures Scanning() && Others() == old(Others()) && tokenOwned >= old(tokenOwned)
      ensures SameStack(entities, old(entities))
      ensures old(entities) != [] ==> physical == old(physical)
      ensures Refers(out, ParseReference(old(Remaining()), old(entities) == []), Remaining())
      ensures account.ample ==> !out.Stopped?
    {
      hide RemainingAt;
      hide NamedReference;
      hide CharacterReference;
      hide SumRetained;
      var admitted := account.Admit();
      if !admitted {
        return Stopped;
      }
      ghost var input := Remaining();
      var u := Take();
      if !u.Value? {
        return if u.Stopped? then Stopped else Malformed(u.why);
      }
      if u.value == HASH {
        var c := ReadCharacterReference();
        out := match c
               case Value(v) => Value(Character(v))
               case Malformed(why) => Malformed(why)
               case Stopped => Stopped;
      } else {
        Unread(u.value);
        assert Remaining() == input;
        out := ReadNamedReference();
      }
    }

    // The entity stack

    /** Walks the stack from the top, looking for the same entity and counting named ones. */
    method ScanStack(name: Name, parameter: bool) returns (recursive: bool, count: nat)
      ensures recursive <==> OnStack(entities, name, parameter)
      ensures !recursive ==> count == Named(entities) + if name != [] then 1 else 0
    {
      count := if name != [] then 1 else 0;
      var i := |entities|;
      assert entities[..i] == entities;
      while i > 0
        invariant 0 <= i <= |entities|
        invariant count == Named(entities) - Named(entities[..i]) + if name != [] then 1 else 0
        invariant forall j :: i <= j < |entities| && name != [] ==>
                    !(entities[j].name == name && entities[j].parameter == parameter)
      {
        i := i - 1;
        assert entities[..i + 1][..i] == entities[..i];
        if name != [] && entities[i].name == name && entities[i].parameter == parameter {
          return true, count;
        }
        if entities[i].name != [] {
          count := count + 1;
        }
      }
      recursive := false;
    }

    method PushEntity(name: Name, parameter: bool, padded: bool, externalMarkup: bool, text: seq<byte>, context: Context)
      returns (out: Outcome<()>)
      requires Valid() && !closed && !needEnd
      modifies this`entities, this`retained, account
      ensures Valid() && Others() == old(Others())
      ensures out.Value? ==>
                && !OnStack(old(entities), name, parameter)
                && entities == old(entities) +
                     [EntityFrame(name, parameter, padded, externalMarkup, text, context, |elements|, 0, Nothing)]
      ensures !out.Value? ==> entities == old(entities)
      ensures out.Malformed? ==>
                if OnStack(entities, name, parameter) then out.why == Recursive
                else name != [] && Named(entities) == MAX_ENTITIES && out.why == TooDeep
      ensures name != [] && Named(old(entities)) == MAX_ENTITIES ==> !out.Value?
      ensures account.ample ==> !out.Stopped?
    {
      hide DepthsNested;
      hide Legible;
      hide RemainingAt;
      hide Distinct;
      hide OnStack;
      hide Named;
      hide Agrees;
      hide SumRetained;
      hide Readable;
      var admitted := account.Admit();
      if !admitted {
        return Stopped;
      }
      var recursive, count := ScanStack(name, parameter);
      if recursive {
        return Malformed(Recursive);
      }
      if count > MAX_ENTITIES {
        return Malformed(TooDeep);
      }
      admitted := account.Admit();
      if !admitted {
        return Stopped;
      }
      var reserved := Reserve(FRAME_BYTES);
      if !reserved {
        return Stopped;
      }
      retained := retained + FRAME_BYTES;
      var frame := EntityFrame(name, parameter, padded, externalMarkup, text, context, |elements|, 0, Nothing);
      DistinctPush(entities, frame);
      DepthsNestedPush(entities, frame, |elements|);
      ReadablePush(entities, frame);
      entities := entities + [frame];
      out := Value(());
    }

    /** A frame is left only at its end, in the context and at the element depth it was
        entered in. */
    method FinishEntity(context: Context) returns (out: Outcome<()>)
      requires Valid() && !closed
      modifies this`entities, this`retained, account
      ensures Valid() && Others() == old(Others())
      ensures out.Value? <==>
                && old(entities) != []
                && var top := old(entities)[|old(entities)| - 1];
                && top.context == context && top.offset == top.Length() && top.lookahead == Nothing
                && top.entryDepth == |elements| && !needEnd
      ensures out.Value? ==> entities == old(entities)[..|old(entities)| - 1]
      ensures !out.Value? ==> entities == old(entities) && out.Malformed?
      ensures account.ample ==> !out.Stopped?
    {
      hide RemainingAt;
      if entities == [] {
        return Malformed(Truncated);
      }
      var top := entities[|entities| - 1];
      if top.context != context || top.offset != top.Length() || top.lookahead.Holding? {
        return Malformed(Truncated);
      }
      if |elements| != top.entryDepth || needEnd {
        return Malformed(Unbalanced);
      }
      entities := entities[..|entities| - 1];
      var _ := account.Release(FRAME_BYTES);
      retained := retained - FRAME_BYTES;
      out := Value(());
    }

    /** A general entity is looked up and entered; the caller goes on reading inside it. */
    method EnterEntity(name: Name, context: Context) returns (out: Outcome<()>)
      requires Valid() && !closed && !needEnd && name != []
      modifies this`entities, this`retained, account
      ensures Valid() && Others() == old(Others())
      ensures match LookUp(store, name, InExternalMarkup(old(entities)), Active(old(entities)), Named(old(entities)))
              case Refused(why) => (out.Stopped? || out == Malformed(why)) && entities == old(entities)
              case Found(text, markup) =>
                if out.Value?
                then entities == old(entities) +
                       [EntityFrame(name, false, false, markup, text, context, |elements|, 0, Nothing)]
                else out.Stopped? && entities == old(entities)
      ensures account.ample ==> !out.Stopped?
    {
      hide RemainingAt;
      hide Distinct;
      hide Named;
      hide Active;
      hide Agrees;
      hide SumRetained;
      ActiveMember(entities, name);
      if name !in store.entities {
        var open := !store.standalone || InExternalMarkup(entities);
        return Malformed(if open && store.unread then UndeclaredUnread
                         else if open && store.parameterReferences then UndeclaredUnassessed
                         else Undeclared);
      }
      match store.entities[name]
      case Unparsed => return Malformed(UnparsedEntity);
      case External => return Malformed(ExternalEntity);
      case Internal(text, markup) =>
        if store.standalone && !InExternalMarkup(entities) && markup {
          return Malformed(StandaloneEntity);
        }
        out := PushEntity(name, false, false, markup, text, context);
    }

    // Attribute values

    /** The builder holds the value, and its bytes are owned on top of `floor`. */
    ghost predicate Holds(b: Builder, value: seq<Rune>, floor: nat)
      reads this
    {
      b.Valid() && b.Held() + floor <= tokenOwned && b.data == EncodeAll(value)
    }

    ghost predicate ReadingValue(owner: nat, mode: Mode)
      reads this, account
    {
      && Valid() && !closed && !needEnd && ValueFrames(entities, owner, |elements|)
      && (mode.quote == 0x22 || mode.quote == 0x27 || (mode.quote == NO_QUOTE && owner > 0))
      && mode.physical == (owner == 0)
      && mode.external == InExternalMarkup(entities[..owner])
    }

    /** The frames below the value are untouched, the owner's apart from its position. */
    twostate predicate SameBelow(owner: nat)
      reads this
    {
      && owner <= |entities| && owner <= |old(entities)|
      && SameStack(entities[..owner], old(entities)[..owner])
      && (old(entities) != [] && owner > 0 ==> physical == old(physical))
    }

    /** What is still to be read, seen from the frame that owns the value. */
    ghost function Pending(value: seq<Rune>, owner: nat, mode: Mode): Result
      requires Readable(entities)
      reads this
    {
      Continue(store, entities, physical, owner, mode, value)
    }

    ghost function PendingWork(owner: nat, mode: Mode): nat
      requires Readable(entities)
      reads this
    {
      StackWork(store, entities, physical, owner, mode)
    }

    /** The value goes on: what is pending still means `meaning`, and less work is left than `work`. */
    ghost predicate Goes(b: Builder, value: seq<Rune>, owner: nat, mode: Mode, floor: nat, meaning: Result, work: nat)
      reads this, account
    {
      && ReadingValue(owner, mode) && Holds(b, value, floor)
      && Pending(value, owner, mode) == meaning && PendingWork(owner, mode) < work
    }

    /** What one step of the value loop may report about a value that means `meaning`. */
    ghost predicate Steps(out: Outcome<bool>, b: Builder, before: seq<Rune>, after: seq<Rune>, owner: nat, mode: Mode, floor: nat,
                          meaning: Result, work: nat)
      requires Readable(entities)
      reads this, account
    {
      match out
      case Stopped => true
      case Malformed(why) => meaning == Failed(why)
      case Value(complete) =>
        if complete then Holds(b, before, floor) && |entities| == owner && meaning == Done(before, Remaining())
        else Goes(b, after, owner, mode, floor, meaning, work)
    }

    method AppendValue(b: Builder, ghost value: seq<Rune>, c: Rune, ghost floor: nat) returns (ok: bool, b': Builder)
      requires Scanning() && Holds(b, value, floor) && IsXmlChar(c)
      modifies this`tokenOwned, account
      ensures Scanning() && Others() == old(Others())
      ensures ok ==> Holds(b', value + [c], floor)
      ensures account.ample ==> ok
    {
      hide EncodeRune;
      ok, b' := Append(b, c);
      assert (value + [c])[..|value|] == value;
    }

    /** A reference to an entity enters it; the rest of the value waits below. */
    method EnterValueEntity(name: Name, b: Builder, ghost value: seq<Rune>, owner: nat, ghost mode: Mode,
                            ghost before: seq<EntityFrame>, ghost physicalBefore: seq<Unit>, ghost floor: nat)
      returns (out: Outcome<()>)
      requires ReadingValue(owner, mode) && Holds(b, value, floor) && mode.references && name != []
      requires Readable(before) && SameStack(entities, before) && (before != [] ==> physical == physicalBefore)
      requires RemainingOf(before, physicalBefore) != [] && RemainingOf(before, physicalBefore)[0] == Char(AMPERSAND)
      requires ParseReference(RemainingOf(before, physicalBefore)[1..], before == []) == General(name, Remaining())
      modifies this`entities, this`retained, account
      ensures Valid() && Others() == old(Others()) && SameBelow(owner)
      ensures out.Value? ==>
                Goes(b, value, owner, mode, floor, Continue(store, before, physicalBefore, owner, mode, value),
                     StackWork(store, before, physicalBefore, owner, mode))
      ensures out.Malformed? ==> Continue(store, before, physicalBefore, owner, mode, value) == Failed(out.why)
      ensures account.ample ==> !out.Stopped?
    {
      hide InExternalMarkup;
      hide RemainingAt;
      hide Distinct;
      hide Agrees;
      hide SumRetained;
      hide ParseReference;
      hide LookUp;
      hide EncodeAll;
      hide Expand;
      hide Continue;
      hide StackWork;
      hide SameStack;
      hide DepthsNested;
      hide Legible;
      hide ModeAt;
      hide Active;
      hide Named;
      hide Readable;
      ModeHere(entities, before, owner, mode);
      SameStackReflexive(entities);
      ValueFramesOwner(entities, owner, |elements|);
      hide ValueFrames;
      out := EnterEntity(name, AttributeValue);
      if out.Value? {
        var frame := entities[|entities| - 1];
        ContinuePush(store, before, physicalBefore, old(entities), physical, frame, owner, mode, value);
        ValueFramesPush(old(entities), frame, owner, |elements|);
        SameStackPrefix(old(entities), old(entities), [frame], owner);
      } else {
        SameStackPrefix(old(entities), old(entities), [], owner);
        assert entities + [] == entities;
        if out.Malformed? {
          ContinueRefused(store, before, physicalBefore, owner, mode, value, out.why);
        }
      }
    }

    /** A reference in a value: its character is appended raw, its entity is entered. */
    method ValueReference(b: Builder, ghost value: seq<Rune>, owner: nat, ghost mode: Mode,
                          ghost before: seq<EntityFrame>, ghost physicalBefore: seq<Unit>, ghost floor: nat)
      returns (out: Outcome<()>, b': Builder, ghost value': seq<Rune>)
      requires ReadingValue(owner, mode) && Holds(b, value, floor) && mode.references
      requires Readable(before) && SameStack(entities, before) && (before != [] ==> physical == physicalBefore)
      requires RemainingOf(before, physicalBefore) != [] && RemainingOf(before, physicalBefore)[0] == Char(AMPERSAND)
      requires Remaining() == RemainingOf(before, physicalBefore)[1..]
      modifies this`entities, this`physical, this`tokenOwned, this`retained, account
      ensures Valid() && Others() == old(Others()) && SameBelow(owner)
      ensures out.Value? ==>
                Goes(b', value', owner, mode, floor, Continue(store, before, physicalBefore, owner, mode, value),
                     StackWork(store, before, physicalBefore, owner, mode))
      ensures out.Malformed? ==> Continue(store, before, physicalBefore, owner, mode, value) == Failed(out.why)
      ensures account.ample ==> !out.Stopped?
    {
      hide InExternalMarkup;
      hide RemainingAt;
      hide Distinct;
      hide Agrees;
      hide SumRetained;
      hide ParseReference;
      hide LookUp;
      hide EncodeAll;
      hide Expand;
      hide Continue;
      hide StackWork;
      hide SameStack;
      hide DepthsNested;
      hide Legible;
      hide ModeAt;
      hide Active;
      hide Named;
      b', value' := b, value;
      ModeHere(entities, before, owner, mode);
      var r := ReadReference();
      SameStackValue(entities, old(entities), owner, |elements|);
      SameStackTransitive(entities, old(entities), before);
      if r.Stopped? {
        return Stopped, b, value;
      }
      if r.Malformed? {
        ContinueRefused(store, before, physicalBefore, owner, mode, value, r.why);
        return Malformed(r.why), b, value;
      }
      if r.value.Character? {
        var ok;
        ok, b' := AppendValue(b, value, r.value.c, floor);
        if !ok {
          return Stopped, b', value;
        }
        ContinueLiteral(store, before, physicalBefore, entities, physical, owner, mode, value, r.value.c);
        value' := value + [r.value.c];
        return Value(()), b', value';
      }
      ghost var stack := entities;
      out := EnterValueEntity(r.value.name, b, value, owner, mode, before, physicalBefore, floor);
      SameStackTransitive(entities[..owner], stack[..owner], old(entities)[..owner]);
    }

    /** A data character just taken: white space becomes a space if the value is normalized. */
    method ValueData(b: Builder, ghost value: seq<Rune>, owner: nat, c: Rune, normalize: bool, ghost mode: Mode,
                     ghost before: seq<EntityFrame>, ghost physicalBefore: seq<Unit>, ghost floor: nat)
      returns (out: Outcome<bool>, b': Builder, ghost value': seq<Rune>)
      requires Scanning() && Holds(b, value, floor) && mode.normalize == normalize && |before| >= owner && IsXmlChar(c)
      requires Readable(before) && SameStack(entities, before) && (before != [] ==> physical == physicalBefore)
      requires RemainingOf(before, physicalBefore) != [] && RemainingOf(before, physicalBefore)[0] == Char(c)
      requires Remaining() == RemainingOf(before, physicalBefore)[1..]
      requires c != LESS && c != AMPERSAND && (|before| == owner && mode.quote != NO_QUOTE ==> c != mode.quote)
      modifies this`tokenOwned, account
      ensures Scanning() && Others() == old(Others())
      ensures out.Stopped? || out == Value(false)
      ensures out.Value? ==>
                && Holds(b', value', floor)
                && Pending(value', owner, mode) == Continue(store, before, physicalBefore, owner, mode, value)
                && PendingWork(owner, mode) < StackWork(store, before, physicalBefore, owner, mode)
      ensures account.ample ==> !out.Stopped?
    {
      hide RemainingAt;
      hide SumRetained;
      hide EncodeAll;
      hide Expand;
      hide Continue;
      hide StackWork;
      hide SameStack;
      var ok;
      var d := if normalize && IsSpace(c) then SPACE else c;
      ok, b' := AppendValue(b, value, d, floor);
      ContinueCharacter(store, before, physicalBefore, entities, physical, owner, mode, value, c);
      value' := value + [d];
      out := if ok then Value(false) else Stopped;
    }

    /** One data character or reference of a value, or its delimiter; `Value(true)` means
        that the value is complete. */
    method ValueCharacter(b: Builder, ghost value: seq<Rune>, owner: nat, quote: Rune, normalize: bool, references: bool,
                          ghost mode: Mode, ghost floor: nat)
      returns (out: Outcome<bool>, b': Builder, ghost value': seq<Rune>)
      requires ReadingValue(owner, mode) && Holds(b, value, floor)
      requires mode.normalize == normalize && mode.references == references && mode.quote == quote
      requires Remaining() != [] && Remaining()[0].Char?
      modifies this`entities, this`physical, this`tokenOwned, this`retained, account
      ensures Valid() && Others() == old(Others()) && SameBelow(owner)
      ensures Steps(out, b', value, value', owner, mode, floor, old(Pending(value, owner, mode)), old(PendingWork(owner, mode)))
      ensures account.ample ==> !out.Stopped?
    {
      hide InExternalMarkup;
      hide RemainingAt;
      hide Distinct;
      hide Agrees;
      hide SumRetained;
      hide ParseReference;
      hide EncodeAll;
      hide Expand;
      hide Continue;
      hide StackWork;
      hide SameStack;
      hide DepthsNested;
      hide Legible;
      hide Active;
      hide Named;
      hide LookUp;
      hide ModeAt;
      b', value' := b, value;
      ghost var before, physicalBefore := entities, physical;
      var u := Take();
      SameStackValue(entities, old(entities), owner, |elements|);
      SameStackStructure(entities, before, |elements|);
      if !u.Value? {
        return Stopped, b, value;
      }
      ghost var stack := entities;
      out, b', value' := ValueTaken(b, value, owner, u.value, quote, normalize, references, mode, before, physicalBefore, floor);
      SameStackTransitive(entities[..owner], stack[..owner], before[..owner]);
    }

    /** The character that was taken from the input `before`. */
    method ValueTaken(b: Builder, ghost value: seq<Rune>, owner: nat, c: Rune, quote: Rune, normalize: bool, references: bool,
                      ghost mode: Mode, ghost before: seq<EntityFrame>, ghost physicalBefore: seq<Unit>, ghost floor: nat)
      returns (out: Outcome<bool>, b': Builder, ghost value': seq<Rune>)
      requires ReadingValue(owner, mode) && Holds(b, value, floor) && IsXmlChar(c)
      requires mode.normalize == normalize && mode.references == references && mode.quote == quote
      requires |before| == |entities|
      requires Readable(before) && SameStack(entities, before) && (before != [] ==> physical == physicalBefore)
      requires RemainingOf(before, physicalBefore) != [] && RemainingOf(before, physicalBefore)[0] == Char(c)
      requires Remaining() == RemainingOf(before, physicalBefore)[1..]
      modifies this`entities, this`physical, this`tokenOwned, this`retained, account
      ensures Valid() && Others() == old(Others()) && SameBelow(owner)
      ensures Steps(out, b', value, value', owner, mode, floor,
                    Continue(store, before, physicalBefore, owner, mode, value), StackWork(store, before, physicalBefore, owner, mode))
      ensures account.ample ==> !out.Stopped?
    {
      hide InExternalMarkup;
      hide RemainingAt;
      hide Distinct;
      hide Agrees;
      hide SumRetained;
      hide ParseReference;
      hide EncodeAll;
      hide Expand;
      hide Continue;
      hide StackWork;
      hide SameStack;
      hide DepthsNested;
      hide Legible;
      hide Active;
      hide Named;
      hide LookUp;
      hide ModeAt;
      b', value' := b, value;
      SameStackReflexive(entities[..owner]);
      ContinueDelimiter(store, before, physicalBefore, owner, mode, value);
      if c == quote && |entities| == owner {
        return Value(true), b, value;
      }
      if c == LESS {
        return Malformed(LessThan), b, value;
      }
      if c == AMPERSAND {
        if !references {
          return Malformed(ReferencesForbidden), b, value;
        }
        var r;
        r, b', value' := ValueReference(b, value, owner, mode, before, physicalBefore, floor);
        out := if r.Value? then Value(false) else if r.Stopped? then Stopped else Malformed(r.why);
        return;
      }
      out, b', value' := ValueData(b, value, owner, c, normalize, mode, before, physicalBefore, floor);
    }

    /** The end of the input being read: an entity entered for the value is left, the owner's
        end completes an unquoted value, anything else is a failure. */
    method ValueBoundary(ghost value: seq<Rune>, owner: nat, quote: Rune, ghost mode: Mode) returns (out: Outcome<bool>)
      requires ReadingValue(owner, mode) && mode.quote == quote
      requires Remaining() == [] || Remaining()[0].Illegal?
      modifies this`entities, this`retained, account
      ensures Valid() && Others() == old(Others()) && SameBelow(owner)
      ensures out == Value(false) ==>
                && ReadingValue(owner, mode)
                && Pending(value, owner, mode) == old(Pending(value, owner, mode))
                && PendingWork(owner, mode) < old(PendingWork(owner, mode))
      ensures out == Value(true) ==> |entities| == owner && old(Pending(value, owner, mode)) == Done(value, Remaining())
      ensures out.Malformed? ==> old(Pending(value, owner, mode)) == Failed(out.why)
      ensures account.ample ==> !out.Stopped?
    {
      hide RemainingAt;
      hide Distinct;
      hide Agrees;
      hide SumRetained;
      hide EncodeAll;
      hide Expand;
      hide Continue;
      hide StackWork;
      hide SameStack;
      hide Active;
      hide Named;
      ContinueEnd(store, entities, physical, owner, mode, value);
      SameStackReflexive(entities[..owner]);
      if entities == [] {
        return Malformed(EndOf(physical));
      }
      var top := entities[|entities| - 1];
      TakeFront(top);
      if top.offset != top.Length() {
        return Malformed(IllegalCharacter);
      }
      if |entities| == owner {
        return if quote != NO_QUOTE then Malformed(Truncated) else Value(true);
      }
      ContinueFinish(store, entities, physical, owner, mode, value);
      var finished := FinishEntity(AttributeValue);
      assert entities[..owner] == old(entities)[..owner];
      out := Value(false);
    }

    /** One character of the value, or the end of the input being read. */
    method ValueUnit(b: Builder, ghost value: seq<Rune>, owner: nat, quote: Rune, normalize: bool, references: bool,
                     ghost mode: Mode, ghost floor: nat)
      returns (out: Outcome<bool>, b': Builder, ghost value': seq<Rune>)
      requires ReadingValue(owner, mode) && Holds(b, value, floor)
      requires mode.normalize == normalize && mode.references == references && mode.quote == quote
      modifies this`entities, this`physical, this`tokenOwned, this`retained, account
      ensures Valid() && Others() == old(Others()) && SameBelow(owner)
      ensures Steps(out, b', value, value', owner, mode, floor, old(Pending(value, owner, mode)), old(PendingWork(owner, mode)))
      ensures account.ample ==> !out.Stopped?
    {
      hide RemainingAt;
      hide Distinct;
      hide Agrees;
      hide SumRetained;
      hide EncodeAll;
      hide Expand;
      hide Continue;
      hide StackWork;
      hide SameStack;
      hide DepthsNested;
      hide Active;
      hide Named;
      hide Legible;
      hide InExternalMarkup;
      b', value' := b, value;
      var u := Peek();
      SameStackValue(entities, old(entities), owner, |elements|);
      ContinuePeek(store, old(entities), entities, physical, owner, mode, value);
      ghost var stack := entities;
      if u.Stopped? {
        return Stopped, b, value;
      } else if u.Malformed? {
        out := ValueBoundary(value, owner, quote, mode);
      } else {
        out, b', value' := ValueCharacter(b, value, owner, quote, normalize, references, mode, floor);
      }
      SameStackTransitive(entities[..owner], stack[..owner], old(entities)[..owner]);
    }

    /** One round of the value loop: a run of plain characters, the end of an entity, or one
        character. */
    method ValueStep(b: Builder, ghost value: seq<Rune>, owner: nat, quote: Rune, normalize: bool, references: bool,
                     ghost mode: Mode, ghost floor: nat)
      returns (out: Outcome<bool>, b': Builder, ghost value': seq<Rune>)
      requires ReadingValue(owner, mode) && Holds(b, value, floor)
      requires mode.normalize == normalize && mode.references == references && mode.quote == quote
      modifies this`entities, this`physical, this`tokenOwned, this`retained, account
      ensures Valid() && Others() == old(Others()) && SameBelow(owner)
      ensures Steps(out, b', value, value', owner, mode, floor, old(Pending(value, owner, mode)), old(PendingWork(owner, mode)))
      ensures account.ample ==> !out.Stopped?
    {
      hide InExternalMarkup;
      hide Legible;
      hide RemainingAt;
      hide Distinct;
      hide Agrees;
      hide SumRetained;
      hide EncodeAll;
      hide Expand;
      hide Continue;
      hide StackWork;
      hide SameStack;
      hide DepthsNested;
      hide Active;
      hide Named;
      value' := value;
      var ok, span;
      ok, b', span := AsciiSpan(b, QuotedSpan(quote));
      SameStackReflexive(entities);
      SameStackValue(entities, old(entities), owner, |elements|);
      if !ok {
        return Stopped, b', value;
      }
      EncodeAllConcat(value, span);
      if span != [] {
        ContinueSpan(store, old(physical), span, mode, value);
        return Value(false), b', value + span;
      }
      assert physical == old(physical) && value + [] == value;
      out, b', value' := ValueUnit(b', value, owner, quote, normalize, references, mode, floor);
    }

    /** The value of an attribute literal, read iteratively over the entity stack, is the
        recursive expansion of the input: the same characters, the same place to go on
        reading, and the same failure if it fails.  Only a budget can keep it from that. */
    method ReadValue(quote: Rune, owner: nat, normalize: bool, references: bool) returns (out: Outcome<seq<byte>>)
      requires Valid() && !closed && !needEnd && owner == |entities|
      requires quote == 0x22 || quote == 0x27 || (quote == NO_QUOTE && entities != [])
      modifies this`entities, this`physical, this`tokenOwned, this`retained, account
      ensures Valid() && Others() == old(Others()) && SameBelow(owner) && (out.Value? ==> tokenOwned >= old(tokenOwned))
      ensures var mode := Mode(normalize, references, old(entities) == [], InExternalMarkup(old(entities)), quote);
              var meaning := Expand(store, old(Remaining()), mode, Active(old(entities)), Named(old(entities)));
              match out
              case Stopped => true
              case Malformed(why) => meaning == Failed(why)
              case Value(v) => |entities| == owner && meaning.Done? && v == EncodeAll(meaning.value) && Remaining() == meaning.rest
      ensures account.ample ==> !out.Stopped?
    {
      hide InExternalMarkup;
      hide RemainingAt;
      hide Distinct;
      hide Agrees;
      hide SumRetained;
      hide EncodeRune;
      hide Expand;
      hide Continue;
      hide StackWork;
      hide SameStack;
      hide DepthsNested;
      hide Legible;
      hide Active;
      hide Named;
      ghost var mode := Mode(normalize, references, entities == [], InExternalMarkup(entities), quote);
      ghost var meaning := Expand(store, Remaining(), mode, Active(entities), Named(entities));
      ghost var value: seq<Rune>, floor := [], tokenOwned;
      var b := Builder([], VALUE_SCRATCH, true);
      ContinueStart(store, entities, physical, mode);
      SameStackReflexive(entities);
      assert entities[..owner] == entities;
      while true
        invariant ReadingValue(owner, mode) && Holds(b, value, floor)
        invariant Others() == old(Others()) && SameBelow(owner)
        invariant Pending(value, owner, mode) == meaning
        decreases PendingWork(owner, mode)
      {
        var step;
        ghost var stack := entities;
        step, b, value := ValueStep(b, value, owner, quote, normalize, references, mode, floor);
        SameStackTransitive(entities[..owner], stack[..owner], old(entities)[..owner]);
        match step {
          case Stopped =>
            return Stopped;
          case Malformed(why) =>
            return Malformed(why);
          case Value(complete) =>
            if complete {
              break;
            }
        }
      }
      var kept := TokenReserve(|b.data|);
      out := if kept then Value(b.data) else Stopped;
    }

    /** A default value from a declaration is read as a literal of its own. */
    method ReadDefaultValue(raw: seq<byte>, externalMarkup: bool) returns (out: Outcome<seq<byte>>)
      requires Valid() && !closed && !needEnd
      modifies this`entities, this`physical, this`tokenOwned, this`retained, account
      ensures Valid() && Others() == old(Others()) && (out.Value? ==> tokenOwned >= old(tokenOwned))
      ensures var meaning := Expand(store, Units(raw), Mode(true, true, false, externalMarkup, NO_QUOTE),
                                    Active(old(entities)), Named(old(entities)));
              match out
              case Stopped => true
              case Malformed(why) => meaning == Failed(why)
              case Value(v) => meaning.Done? && v == EncodeAll(meaning.value) && entities == old(entities) && physical == old(physical)
      ensures account.ample ==> !out.Stopped?
    {
      hide RemainingAt;
      hide Distinct;
      hide Agrees;
      hide SumRetained;
      hide EncodeAll;
      hide Expand;
      hide DepthsNested;
      hide Legible;
      var pushed := PushEntity([], false, false, externalMarkup, raw, AttributeValue);
      if !pushed.Value? {
        return Stopped;
      }
      UnnamedPush(old(entities), entities[|entities| - 1]);
      ghost var frame := entities[|entities| - 1];
      var owner := |entities|;
      out := ReadValue(NO_QUOTE, owner, true, true);
      if out.Value? {
        assert entities[..owner] == entities;
        ExpandReadsAll(store, Units(raw), Mode(true, true, false, externalMarkup, NO_QUOTE), Active(old(entities)), Named(old(entities)));
        TakeFront(entities[owner - 1]);
        var finished := FinishEntity(AttributeValue);
      }
    }

    // Elements and namespaces

    /** The binding of a prefix in scope. */
    function Lookup(prefix: string): Binding
      reads this
    {
      if prefix == "xml" then Bound(XML_URI) else Get(namespaces, prefix)
    }

    /** Enters the declarations of a tag into the table and records how to take them back.
        On failure the reader is unusable, but what it charged is still counted. */
    method Declare(attributes: seq<Attribute>) returns (out: Outcome<seq<Undo>>, charge: nat)
      requires Owning() && !closed
      modifies this`namespaces, this`tableMade, this`retained, this`mapOwned, account
      ensures Owning() && Others() == old(Others()) && retained == old(retained) + charge
      ensures out.Value? ==>
                && DeclarationsAllowed(attributes)
                && SameBindings(Rewind(namespaces, out.value), old(namespaces))
                && Extends(namespaces, old(namespaces), Declared(attributes))
      ensures out.Malformed? ==> !DeclarationsAllowed(attributes)
      ensures account.ample ==> !out.Stopped?
    {
      hide DeclarationsAllowed;
      hide Rewind;
      hide Declared;
      hide DeclarationAllowed;
      hide IsDeclaration;
      hide DeclaredPrefix;
      hide SumRetained;
      var lexical: set<QName>, undo: seq<Undo> := {}, [];
      charge := 0;
      var i := 0;
      assert attributes[..0] == [];
      NothingDeclared(namespaces);
      while i < |attributes|
        invariant 0 <= i <= |attributes| && !closed
        invariant Owning() && Others() == old(Others()) && retained == old(retained) + charge
        invariant forall q :: q in lexical <==> exists j :: 0 <= j < i && attributes[j].name == q
        invariant DeclarationsAllowed(attributes[..i])
        invariant SameBindings(Rewind(namespaces, undo), old(namespaces))
        invariant Extends(namespaces, old(namespaces), Declared(attributes[..i]))
      {
        var a := attributes[i];
        DeclaredStep(attributes, i);
        DeclarationsStep(attributes, i);
        var admitted := account.Admit();
        if !admitted {
          return Stopped, charge;
        }
        if a.name in lexical {
          return Malformed(TagConstraint), charge;
        }
        lexical := lexical + {a.name};
        if IsDeclaration(a) {
          if !DeclarationAllowed(a) {
            return Malformed(TagConstraint), charge;
          }
          var prefix := DeclaredPrefix(a);
          var ok, cost := ReserveDeclaration(prefix, a.value);
          charge := charge + cost;
          if !ok {
            return Stopped, charge;
          }
          RewindRecord(namespaces, undo, prefix, Bound(a.value));
          undo := undo + [Undo(prefix, Get(namespaces, prefix))];
          namespaces := namespaces[prefix := Bound(a.value)];
        }
        i := i + 1;
      }
      assert attributes[..i] == attributes;
      out := Value(undo);
    }

    /** The bytes of one declaration, of the table itself and of a new key. */
    method ReserveDeclaration(prefix: string, uri: string) returns (ok: bool, charge: nat)
      requires Owning() && !closed
      modifies this`tableMade, this`retained, this`mapOwned, account
      ensures Owning() && Others() == old(Others()) && retained == old(retained) + charge
      ensures account.ample ==> ok
    {
      hide SumRetained;
      charge := 0;
      ok := Reserve(256 + |prefix| + |uri|);
      if !ok {
        return;
      }
      charge := 256 + |prefix| + |uri|;
      retained := retained + charge;
      if !tableMade {
        ok := Reserve(256);
        if !ok {
          return;
        }
        mapOwned := mapOwned + 256;
        tableMade := true;
      }
      if prefix !in namespaces {
        ok := Reserve(128 + |prefix|);
        if ok {
          mapOwned := mapOwned + 128 + |prefix|;
        }
      }
    }

    /** The names of a tag against the table, all declarations of the tag being in force. */
    method CheckNames(name: QName, attributes: seq<Attribute>, ghost inner: seq<Scope>) returns (out: Outcome<()>)
      requires Shows(namespaces, inner)
      ensures out.Value? ==> NamesAllowed(inner, name, attributes)
      ensures out.Malformed? ==> !NamesAllowed(inner, name, attributes)
      ensures account.ample ==> !out.Stopped?
    {
      hide NamesSoFar;
      hide ExpandedDistinct;
      hide Resolve;
      assert forall p :: Lookup(p) == Meaning(inner, p);
      if name.space == "xmlns" || (name.space != "" && Lookup(name.space).Unbound?) {
        return Malformed(TagConstraint);
      }
      var expanded: set<QName> := {};
      NamesNone(inner, attributes);
      for i := 0 to |attributes|
        invariant NamesSoFar(inner, attributes, i, expanded)
      {
        var a := attributes[i];
        NamesStep(inner, attributes, i, expanded);
        var admitted := account.Admit();
        if !admitted {
          return Stopped;
        }
        if !IsDeclaration(a) {
          var full := a.name;
          if a.name.space != "" {
            var binding := Lookup(a.name.space);
            if binding.Unbound? {
              return Malformed(TagConstraint);
            }
            full := QName(binding.uri, a.name.local);
          }
          if full in expanded {
            return Malformed(TagConstraint);
          }
          expanded := expanded + {full};
        }
      }
      NamesAll(inner, name, attributes, expanded);
      out := Value(());
    }

    /** Charges for a tag, enters its declarations and checks its names. */
    method AdmitTag(name: QName, attributes: seq<Attribute>, ghost inner: seq<Scope>)
      returns (out: Outcome<ElementFrame>)
      requires Owning() && !closed && Shows(namespaces, scopes) && inner == scopes + [Declared(attributes)]
      modifies this`namespaces, this`tableMade, this`tokenOwned, this`retained, this`mapOwned, account
      ensures Owning() && Others() == old(Others())
      ensures out.Value? ==>
                && TagAllowed(scopes, name, attributes) && out.value.name == name
                && retained == old(retained) + out.value.retained
                && Shows(namespaces, inner) && SameBindings(Rewind(namespaces, out.value.undo), old(namespaces))
      ensures out.Malformed? ==> !TagAllowed(scopes, name, attributes)
      ensures account.ample ==> !out.Stopped?
    {
      hide TagAllowed;
      hide NamesAllowed;
      hide DeclarationsAllowed;
      hide SumRetained;
      hide Declared;
      hide Rewind;
      hide SameBindings;
      hide Shows;
      hide Extends;
      TagRefused(scopes, name, attributes);
      var charge := 256 + |name.space| + |name.local|;
      var ok := Reserve(charge);
      if !ok {
        return Stopped;
      }
      retained := retained + charge;
      ok := TokenReserve(128 + |attributes| * 256);
      if !ok {
        return Stopped;
      }
      var declared, more := Declare(attributes);
      if !declared.Value? {
        return if declared.Stopped? then Stopped else Malformed(declared.why);
      }
      ExtendsShows(old(namespaces), namespaces, scopes, Declared(attributes));
      var checked := CheckNames(name, attributes, inner);
      if !checked.Value? {
        return if checked.Stopped? then Stopped else Malformed(checked.why);
      }
      out := Value(ElementFrame(name, declared.value, charge + more));
    }

    /** A start tag is accepted exactly if the namespace constraints allow it in the scopes
        that are open, and then one more scope is. */
    method OpenElement(name: QName, attributes: seq<Attribute>) returns (out: Outcome<()>)
      requires Valid() && !closed && !failed && !needEnd
      modifies this`elements, this`namespaces, this`tableMade, this`tokenOwned, this`retained, this`mapOwned
      modifies this`failed, this`scopes, account
      ensures Valid() && Others() == old(Others())
      ensures out.Value? ==>
                && TagAllowed(old(scopes), name, attributes) && scopes == old(scopes) + [Declared(attributes)]
                && |elements| == |old(elements)| + 1 && elements[..|old(elements)|] == old(elements)
                && elements[|old(elements)|].name == name && !failed
      ensures out.Malformed? ==> !TagAllowed(old(scopes), name, attributes)
      ensures !out.Value? ==> failed && elements == old(elements) && scopes == old(scopes)
      ensures account.ample ==> !out.Stopped?
    {
      hide TagAllowed;
      hide Readable;
      hide Legible;
      hide Distinct;
      hide SumRetained;
      hide Log;
      hide Declared;
      hide Rewind;
      hide SameBindings;
      hide Named;
      hide Agrees;
      hide DepthsNested;
      ghost var inner := scopes + [Declared(attributes)];
      AgreesShows(namespaces, Log(elements), scopes);
      DepthsNestedMore(entities, |elements|);
      var admitted := AdmitTag(name, attributes, inner);
      if !admitted.Value? {
        failed := true;
        return if admitted.Stopped? then Stopped else Malformed(admitted.why);
      }
      LogPush(elements, admitted.value);
      AgreesOpen(old(namespaces), namespaces, Log(elements), scopes, admitted.value.undo, Declared(attributes));
      elements, scopes := elements + [admitted.value], inner;
      out := Value(());
    }

    /** The log is undone from its end. */
    method Restore(undo: seq<Undo>)
      modifies this`namespaces
      ensures namespaces == Rewind(old(namespaces), undo)
    {
      assert undo[..|undo|] == undo;
      var i := |undo|;
      while i > 0
        invariant 0 <= i <= |undo| && Rewind(namespaces, undo[..i]) == Rewind(old(namespaces), undo)
      {
        i := i - 1;
        assert undo[..i + 1][..i] == undo[..i];
        namespaces := namespaces[undo[i].prefix := undo[i].previous];
      }
    }

    /** Leaving an element restores the table of the scopes around it. */
    method PopElement()
      requires Valid() && !closed && elements != [] && (entities != [] ==> entities[|entities| - 1].entryDepth < |elements|)
      modifies this`elements, this`namespaces, this`retained, this`rootClosed, this`needEnd, this`scopes, account
      ensures Valid() && Others() == old(Others()) && !needEnd
      ensures elements == old(elements)[..|old(elements)| - 1] && rootClosed == (old(rootClosed) || elements == [])
      ensures !failed ==> scopes == old(scopes)[..|old(scopes)| - 1]
    {
      hide Readable;
      hide Legible;
      hide Distinct;
      hide Agrees;
      hide SumRetained;
      hide Log;
      hide Named;
      hide DepthsNested;
      LogPop(elements);
      DepthsNestedLess(entities, |elements|);
      PopTable();
      ReleaseFrame(elements[|elements| - 1]);
      elements, needEnd := elements[..|elements| - 1], false;
      rootClosed := rootClosed || elements == [];
    }

    method PopTable()
      requires elements != [] && (!failed ==> Agrees(namespaces, Log(elements), scopes))
      modifies this`namespaces, this`scopes
      ensures !failed ==> |old(scopes)| == |elements| && scopes == old(scopes)[..|old(scopes)| - 1]
      ensures !failed ==> Agrees(namespaces, Log(elements[..|elements| - 1]), scopes)
    {
      hide Agrees;
      hide Rewind;
      hide Log;
      LogPop(elements);
      if !failed {
        AgreesPop(namespaces, Log(elements), scopes);
        scopes := scopes[..|scopes| - 1];
      }
      Restore(elements[|elements| - 1].undo);
    }

    method ReleaseFrame(frame: ElementFrame)
      requires !closed && Others() >= 0 && frame.retained <= retained
      modifies this`retained, account
      ensures Others() == old(Others()) && retained == old(retained) - frame.retained
    {
      var _ := account.Release(frame.retained);
      retained := retained - frame.retained;
    }

    /** In a usable reader the table answers every prefix as the innermost open declaration
        does. */
    lemma LookupIsInnermost(prefix: string)
      requires Valid() && !failed && !closed
      ensures Lookup(prefix) == Meaning(scopes, prefix)
    {
      AgreesShows(namespaces, Log(elements), scopes);
    }

    method EndElement(name: QName) returns (out: Outcome<()>)
      requires Valid() && !closed && !failed && !needEnd
      modifies this`elements, this`namespaces, this`retained, this`rootClosed, this`needEnd, this`scopes, account
      ensures Valid() && Others() == old(Others()) && !needEnd
      ensures out.Value? <==>
                && old(elements) != [] && old(elements)[|old(elements)| - 1].name == name
                && (entities == [] || entities[|entities| - 1].entryDepth < |old(elements)|)
      ensures out.Value? ==> elements == old(elements)[..|old(elements)| - 1] && scopes == old(scopes)[..|old(scopes)| - 1]
      ensures out.Value? ==> rootClosed == (old(rootClosed) || elements == [])
      ensures !out.Value? ==> elements == old(elements) && scopes == old(scopes) && out.Malformed?
      ensures account.ample ==> !out.Stopped?
    {
      if entities != [] && |elements| <= entities[|entities| - 1].entryDepth {
        return Malformed(Unbalanced);
      }
      if elements == [] || elements[|elements| - 1].name != name {
        return Malformed(TagMismatch);
      }
      PopElement();
      out := Value(());
    }

    method StartElement(name: QName, attributes: seq<Attribute>, empty: bool) returns (out: Outcome<()>)
      requires Valid() && !closed && !failed && !needEnd
      modifies this`elements, this`namespaces, this`tableMade, this`tokenOwned, this`retained, this`mapOwned
      modifies this`failed, this`scopes, this`needEnd, account
      ensures Valid() && Others() == old(Others())
      ensures out.Value? ==>
                && !rootClosed && |old(elements)| < maxDepth && needEnd == empty && !failed
                && |elements| == |old(elements)| + 1 && elements[..|old(elements)|] == old(elements)
                && elements[|old(elements)|].name == name
                && TagAllowed(old(scopes), name, attributes) && scopes == old(scopes) + [Declared(attributes)]
      ensures out.Malformed? ==> rootClosed || |old(elements)| >= maxDepth || !TagAllowed(old(scopes), name, attributes)
      ensures account.ample ==> !out.Stopped?
    {
      hide TagAllowed;
      hide Distinct;
      hide Readable;
      hide Legible;
      hide Agrees;
      hide SumRetained;
      if rootClosed || |elements| >= maxDepth {
        return Malformed(TagForbidden);
      }
      out := OpenElement(name, attributes);
      if out.Value? {
        needEnd := empty;
      }
    }

    /** Entities whose text has been read are left, innermost first. */
    method FinishRead() returns (out: Outcome<()>)
      requires Valid() && !closed && !needEnd
      modifies this`entities, this`retained, account
      ensures Valid() && Others() == old(Others())
      ensures out.Value? <==> CanLeave(old(entities), |elements|)
      ensures out.Value? ==> entities == Left(old(entities))
      ensures out.Value? ==> forall i :: |entities| <= i < |old(entities)| ==> old(entities)[i].entryDepth == |elements|
      ensures !out.Stopped?
    {
      hide Distinct;
      hide Legible;
      hide Agrees;
      hide SumRetained;
      hide RemainingAt;
      hide DepthsNested;
      hide Named;
      hide Readable;
      while entities != [] && entities[|entities| - 1].offset == entities[|entities| - 1].Length() &&
            entities[|entities| - 1].lookahead == Nothing
        invariant Valid() && !closed && Others() == old(Others())
        invariant entities <= old(entities) && Left(entities) == Left(old(entities))
        invariant CanLeave(entities, |elements|) <==> CanLeave(old(entities), |elements|)
        invariant forall i :: |entities| <= i < |old(entities)| ==> old(entities)[i].entryDepth == |elements|
        decreases |entities|
      {
        var finished := FinishEntity(Content);
        if !finished.Value? {
          return finished;
        }
      }
      TopEnds(entities);
      out := Value(());
    }
  }

  /** A frame with a character ahead has not been read to its end. */
  lemma TopEnds(entities: seq<EntityFrame>)
    requires Readable(entities)
    ensures entities != [] && entities[|entities| - 1].offset == entities[|entities| - 1].Length() ==>
              entities[|entities| - 1].lookahead == Nothing
  {
    if entities != [] && entities[|entities| - 1].offset == entities[|entities| - 1].Length() {
      EndRemains(entities[|entities| - 1]);
    }
  }

  lemma ReadablePush(entities: seq<EntityFrame>, frame: EntityFrame)
    requires Readable(entities) && frame.Valid()
    ensures Readable(entities + [frame])
  {
  }

  lemma DepthsNestedPush(entities: seq<EntityFrame>, frame: EntityFrame, depth: nat)
    requires DepthsNested(entities, depth) && frame.entryDepth == depth
    ensures DepthsNested(entities + [frame], depth)
  {
  }

  lemma DepthsNestedMore(entities: seq<EntityFrame>, depth: nat)
    requires DepthsNested(entities, depth)
    ensures DepthsNested(entities, depth + 1)
  {
  }

  lemma DepthsNestedLess(entities: seq<EntityFrame>, depth: nat)
    requires DepthsNested(entities, depth) && (entities != [] ==> entities[|entities| - 1].entryDepth < depth)
    ensures depth > 0 ==> DepthsNested(entities, depth - 1)
  {
    var n := |entities| - 1;
    assert forall i :: 0 <= i < n ==> entities[i].entryDepth <= entities[n].entryDepth;
  }

  lemma LogPush(elements: seq<ElementFrame>, frame: ElementFrame)
    ensures Log(elements + [frame]) == Log(elements) + [frame.undo]
    ensures SumRetained(elements + [frame]) == SumRetained(elements) + frame.retained
  {
    assert (elements + [frame])[..|elements|] == elements;
  }

  lemma LogPop(elements: seq<ElementFrame>)
    requires elements != []
    ensures Log(elements[..|elements| - 1]) == Log(elements)[..|elements| - 1]
    ensures |Log(elements)| == |elements| && Log(elements)[|elements| - 1] == elements[|elements| - 1].undo
    ensures SumRetained(elements) == SumRetained(elements[..|elements| - 1]) + elements[|elements| - 1].retained
  {
  }

  lemma ExtendsShows(before: Table, now: Table, scopes: seq<Scope>, scope: Scope)
    requires Shows(before, scopes) && Extends(now, before, scope)
    ensures Shows(now, scopes + [scope])
  {
    assert (scopes + [scope])[..|scopes|] == scopes;
    forall p
      ensures Get(now, p) == Resolve(scopes + [scope], p)
    {
      assert Get(before, p) == Resolve(scopes, p);
    }
  }

  lemma TagRefused(scopes: seq<Scope>, name: QName, attributes: seq<Attribute>)
    ensures TagAllowed(scopes, name, attributes) <==>
            DeclarationsAllowed(attributes) && NamesAllowed(scopes + [Declared(attributes)], name, attributes)
  {
  }

  ghost predicate ExpandsTo(inner: seq<Scope>, a: Attribute, q: QName) {
    !IsDeclaration(a) && ExpandedName(inner, a.name) == q
  }

  /** The first `i` attributes are bound and distinct, and `expanded` holds their names. */
  ghost predicate NamesSoFar(inner: seq<Scope>, attributes: seq<Attribute>, i: nat, expanded: set<QName>)
    requires i <= |attributes|
  {
    && (forall q :: q in expanded ==> exists j :: 0 <= j < i && ExpandsTo(inner, attributes[j], q))
    && (forall j :: 0 <= j < i && !IsDeclaration(attributes[j]) ==>
          PrefixBound(inner, attributes[j]) && ExpandedName(inner, attributes[j].name) in expanded)
    && ExpandedDistinct(inner, attributes[..i])
  }

  lemma NamesNone(inner: seq<Scope>, attributes: seq<Attribute>)
    ensures NamesSoFar(inner, attributes, 0, {})
  {
  }

  lemma NamesAll(inner: seq<Scope>, name: QName, attributes: seq<Attribute>, expanded: set<QName>)
    requires NamesSoFar(inner, attributes, |attributes|, expanded)
    requires name.space != "xmlns" && (name.space != "" ==> Meaning(inner, name.space).Bound?)
    ensures NamesAllowed(inner, name, attributes)
  {
    assert attributes[..|attributes|] == attributes;
  }

  lemma NamesStep(inner: seq<Scope>, attributes: seq<Attribute>, i: nat, expanded: set<QName>)
    requires i < |attributes| && NamesSoFar(inner, attributes, i, expanded)
    ensures var a := attributes[i];
            var full := ExpandedName(inner, a.name);
            && (IsDeclaration(a) ==> NamesSoFar(inner, attributes, i + 1, expanded))
            && (!IsDeclaration(a) && PrefixBound(inner, a) && full !in expanded ==>
                  NamesSoFar(inner, attributes, i + 1, expanded + {full}))
            && (!IsDeclaration(a) && !(PrefixBound(inner, a) && full !in expanded) ==>
                  forall name :: !NamesAllowed(inner, name, attributes))
  {
    hide ExpandedName;
    hide IsDeclaration;
    hide PrefixBound;
    var a := attributes[i];
    var full := ExpandedName(inner, a.name);
    assert attributes[..i + 1] == attributes[..i] + [a];
    if !IsDeclaration(a) {
      if full in expanded {
        var j :| 0 <= j < i && ExpandsTo(inner, attributes[j], full);
        assert !ExpandedDistinct(inner, attributes);
      } else {
        assert ExpandsTo(inner, attributes[i], full);
      }
    }
  }

  lemma NothingDeclared(table: Table)
    ensures DeclarationsAllowed([]) && SameBindings(Rewind(table, []), table) && Extends(table, table, Declared([]))
  {
  }

  /** The table answers for the new declarations first and for everything else as before. */
  ghost predicate Extends(now: Table, before: Table, scope: Scope) {
    forall p :: Get(now, p) == if p in scope then Bound(scope[p]) else Get(before, p)
  }

  /** What a reference names. */
  datatype Referent = Character(c: Rune) | Entity(name: Name)

  ghost predicate Refers(out: Outcome<Referent>, r: Reference, rest: seq<Unit>) {
    match r
    case Literal(c, after) => out.Stopped? || (out == Value(Character(c)) && rest == after)
    case General(name, after) => out.Stopped? || (out == Value(Entity(name)) && rest == after)
    case Broken(why) => out.Stopped? || out == Malformed(why)
  }

  /** How a character reference method reports what the reference means. */
  ghost predicate Reports(out: Outcome<Rune>, r: Reference, rest: seq<Unit>) {
    match r
    case Literal(c, after) => out.Stopped? || (out == Value(c) && rest == after)
    case Broken(why) => out.Stopped? || out == Malformed(why)
    case General(_, _) => out.Stopped?
  }
}
