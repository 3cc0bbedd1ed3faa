/** The tokens of a document, read character by character over the entity stack: start and end
    tags, text, comments, instructions and the document type.  What is delivered is what the
    grammar says of the characters ahead, and whatever is read and wherever reading stops, the
    account can be returned to where it was. */
module Tokenizers {
  import opened Accounts
  import opened Utf8
  import opened Expansion
  import opened EntityFrames
  import opened Namespaces
  import opened Markup
  import opened TokenReaders

  const CONTENT: Mode := Mode(false, true, true, false, NO_QUOTE)

  /** Only a budget keeps a method from what the grammar says. */
  ghost predicate Meets<T>(out: Outcome<T>, grammar: Parsed<T>, rest: seq<Unit>) {
    match out
    case Stopped => true
    case Malformed(why) => grammar == Fails(why)
    case Value(v) => grammar == Parsed(v, rest)
  }

  /** The place of the input that is being read. */
  ghost function PlaceOf(store: Store, entities: seq<EntityFrame>): Place {
    Place(store, entities == [], InExternalMarkup(entities), Active(entities), Named(entities))
  }

  lemma SamePlace(store: Store, a: seq<EntityFrame>, b: seq<EntityFrame>)
    requires SameStack(a, b)
    ensures PlaceOf(store, a) == PlaceOf(store, b) && (a == [] <==> b == [])
  {
    SameStackStructure(a, b, 0);
  }

  lemma PlacePhysical(store: Store, entities: seq<EntityFrame>)
    ensures PlaceOf(store, entities).physical == (entities == [])
  {
  }

  lemma PlaceStore(store: Store, entities: seq<EntityFrame>)
    ensures PlaceOf(store, entities).store == store
  {
  }

  /** Remarks are delivered as the grammar reads them; what a declaration holds is left open. */
  ghost predicate Reads(out: Outcome<Token>, grammar: Parsed<Lexed>, rest: seq<Unit>) {
    if grammar.Parsed? && grammar.value.Unread? then out.Value? ==> out.value.DeclarationToken?
    else
      match out
      case Stopped => true
      case Malformed(why) => grammar == Fails(why)
      case Value(token) => grammar == Parsed(Remarks(token), rest)
  }

  /** A piece of character data: a character, a referenced one, an entity that was entered, or
      the end of the data. */
  datatype Piece = Plain(c: Rune) | Referenced(c: Rune) | Inside | Boundary

  class Tokenizer {
    const reader: TokenReader
    const maxAttributes: nat
    var seenRoot: bool
    var seenToken: bool
    var doctype: bool
    var complete: bool
    var storeOwned: nat                           // what the declaration store holds
    ghost var entered: seq<seq<ElementFrame>>     // the elements open when each entity was entered

    constructor (reader: TokenReader, maxAttributes: nat)
      ensures this.reader == reader && this.maxAttributes == maxAttributes
      ensures !seenRoot && !seenToken && !doctype && !complete && storeOwned == 0 && entered == []
    {
      this.reader, this.maxAttributes := reader, maxAttributes;
      seenRoot, seenToken, doctype, complete, storeOwned, entered := false, false, false, false, 0, [];
    }

    ghost function Here(): Place
      reads reader`entities
    {
      PlaceOf(reader.store, reader.entities)
    }

    // Characters

    method Must() returns (out: Outcome<Rune>)
      requires reader.Valid() && !reader.closed
      modifies reader`entities, reader`physical
      ensures reader.Valid() && reader.Others() == old(reader.Others()) && SameStack(reader.entities, old(reader.entities))
      ensures old(reader.entities) != [] ==> reader.physical == old(reader.physical)
      ensures Meets(out, OneChar(old(reader.Remaining())), reader.Remaining())
      ensures out.Value? ==> IsXmlChar(out.value) && CanReturn(reader.entities, out.value)
      ensures reader.account.ample ==> !out.Stopped?
    {
      hide Agrees;
      hide SumRetained;
      hide RemainingAt;
      hide Distinct;
      hide DepthsNested;
      hide Named;
      out := reader.Take();
      SameStackStructure(reader.entities, old(reader.entities), |reader.elements|);
    }

    method Look() returns (out: Outcome<Rune>)
      requires reader.Valid() && !reader.closed
      modifies reader`entities
      ensures reader.Valid() && reader.Others() == old(reader.Others()) && SameStack(reader.entities, old(reader.entities))
      ensures reader.Remaining() == old(reader.Remaining())
      ensures match out
              case Stopped => true
              case Malformed(why) => OneChar(reader.Remaining()) == Fails(why)
              case Value(c) => var next := OneChar(reader.Remaining()); next.Parsed? && next.value == c && IsXmlChar(c)
      ensures reader.account.ample ==> !out.Stopped?
    {
      hide Agrees;
      hide SumRetained;
      hide RemainingAt;
      hide Distinct;
      hide DepthsNested;
      hide Named;
      out := reader.Peek();
      SameStackStructure(reader.entities, old(reader.entities), |reader.elements|);
    }

    method PutBack(c: Rune)
      requires reader.Valid() && !reader.closed && CanReturn(reader.entities, c) && IsXmlChar(c)
      modifies reader`entities, reader`physical
      ensures reader.Valid() && reader.Others() == old(reader.Others()) && SameStack(reader.entities, old(reader.entities))
      ensures reader.Remaining() == [Char(c)] + old(reader.Remaining())
    {
      hide Agrees;
      hide SumRetained;
      hide RemainingAt;
      hide Distinct;
      hide DepthsNested;
      hide Named;
      reader.Unread(c);
      SameStackStructure(reader.entities, old(reader.entities), |reader.elements|);
    }

    method ReadName() returns (out: Outcome<Name>)
      requires reader.Valid() && !reader.closed
      modifies reader`entities, reader`physical, reader`tokenOwned, reader.account
      ensures reader.Valid() && reader.Others() == old(reader.Others()) && SameStack(reader.entities, old(reader.entities))
      ensures reader.tokenOwned >= old(reader.tokenOwned)
      ensures Meets(out, NameAt(old(reader.Remaining()), old(reader.entities) == []), reader.Remaining())
      ensures reader.account.ample ==> !out.Stopped?
    {
      hide Agrees;
      hide SumRetained;
      hide RemainingAt;
      hide Distinct;
      hide DepthsNested;
      hide Named;
      hide ReadsName;
      hide NameLength;
      out := reader.Name();
      SameStackStructure(reader.entities, old(reader.entities), |reader.elements|);
    }

    /** Exactly these characters were next. */
    method Literal(want: seq<Rune>) returns (out: Outcome<()>)
      requires reader.Valid() && !reader.closed
      modifies reader`entities, reader`physical
      ensures reader.Valid() && reader.Others() == old(reader.Others()) && SameStack(reader.entities, old(reader.entities))
      ensures Meets(out, Expect(old(reader.Remaining()), want), reader.Remaining())
      ensures out.Value? ==> Consumed(old(reader.Remaining()), want, reader.Remaining())
      ensures reader.account.ample ==> !out.Stopped?
    {
      hide SameStack;
      hide RemainingAt;
      hide Expect;
      ghost var before := reader.Remaining();
      ExpectNothing(before);
      SameStackReflexive(reader.entities);
      assert want[..0] == [];
      for i := 0 to |want|
        invariant reader.Valid() && reader.Others() == old(reader.Others()) && SameStack(reader.entities, old(reader.entities))
        invariant Expect(before, want[..i]) == Parsed((), reader.Remaining())
      {
        ghost var stack := reader.entities;
        ExpectMore(before, want, i, reader.Remaining());
        var u := Must();
        SameStackTransitive(reader.entities, stack, old(reader.entities));
        if !u.Value? {
          return if u.Stopped? then Stopped else Malformed(u.why);
        }
        if u.value != want[i] {
          return Malformed(BadMarkup);
        }
      }
      assert want[..|want|] == want;
      ExpectConsumes(before, want);
      out := Value(());
    }

    /** A run of buffered white space at once. */
    method SkipBlanks() returns (ok: bool, some: bool)
      requires reader.Valid() && !reader.closed
      modifies reader`physical
      ensures reader.Valid() && reader.Others() == old(reader.Others())
      ensures if some then |reader.Remaining()| < |old(reader.Remaining())| else reader.physical == old(reader.physical)
      ensures BlankAt(old(reader.Remaining()), reader.entities == []) == Blanks(some, BlankAt(reader.Remaining(), reader.entities == []))
      ensures reader.account.ample ==> ok
    {
      hide RemainingAt;
      hide BlankAt;
      var count;
      ok, count := reader.SkipSpaces();
      some := count > 0;
      assert old(reader.physical)[0..] == old(reader.physical);
      if reader.entities == [] {
        BlankSpan(old(reader.physical), count, true);
      } else {
        BlankSpan(reader.Remaining(), 0, false);
        assert reader.Remaining()[0..] == reader.Remaining();
      }
    }

    /** White space, and whether there was any.  It may end with the document, not with an entity. */
    method Spaces() returns (out: Outcome<bool>)
      requires reader.Valid() && !reader.closed
      modifies reader`entities, reader`physical
      ensures reader.Valid() && reader.Others() == old(reader.Others()) && SameStack(reader.entities, old(reader.entities))
      ensures Meets(out, BlankAt(old(reader.Remaining()), old(reader.entities) == []), reader.Remaining())
      ensures reader.account.ample ==> !out.Stopped?
    {
      hide SameStack;
      hide RemainingAt;
      hide Agrees;
      hide SumRetained;
      hide Distinct;
      hide DepthsNested;
      hide Named;
      hide Readable;
      hide Legible;
      SameStackReflexive(reader.entities);
      var found := false;
      ghost var goal := BlankAt(reader.Remaining(), reader.entities == []);
      while true
        invariant reader.Valid() && reader.Others() == old(reader.Others()) && SameStack(reader.entities, old(reader.entities))
        invariant goal == Blanks(found, BlankAt(reader.Remaining(), old(reader.entities) == []))
        decreases |reader.Remaining()|
      {
        ghost var stack := reader.entities;
        SamePlace(reader.store, reader.entities, old(reader.entities));
        var ok, skipped := SkipBlanks();
        if !ok {
          return Stopped;
        }
        if skipped {
          found := true;
          continue;
        }
        var u := Look();
        SameStackTransitive(reader.entities, stack, old(reader.entities));
        SamePlace(reader.store, reader.entities, old(reader.entities));
        if u.Stopped? {
          return Stopped;
        }
        if u.Malformed? {
          return if u.why.Truncated? && reader.entities == [] then Value(found) else Malformed(u.why);
        }
        if !IsSpace(u.value) {
          return Value(found);
        }
        stack := reader.entities;
        var taken := Must();
        SameStackTransitive(reader.entities, stack, old(reader.entities));
        if !taken.Value? {
          return Stopped;
        }
        found := true;
      }
    }

    /** A quoted literal; its value is the expansion, and reading goes on behind it in the same input. */
    method Quoted(normalize: bool, references: bool) returns (out: Outcome<seq<byte>>)
      requires reader.Valid() && !reader.closed && !reader.needEnd
      modifies reader`entities, reader`physical, reader`tokenOwned, reader`retained, reader.account
      ensures reader.Valid() && reader.Others() == old(reader.Others())
      ensures out.Value? ==> SameStack(reader.entities, old(reader.entities)) && reader.tokenOwned >= old(reader.tokenOwned)
      ensures Meets(out, QuotedAt(old(Here()), old(reader.Remaining()), normalize, references), reader.Remaining())
      ensures reader.account.ample ==> !out.Stopped?
    {
      hide Agrees;
      hide SumRetained;
      hide Distinct;
      hide DepthsNested;
      hide Readable;
      hide Legible;
      hide SameStack;
      hide RemainingAt;
      hide Expand;
      hide Active;
      hide Named;
      hide InExternalMarkup;
      hide EncodeAll;
      var u := Must();
      SamePlace(reader.store, reader.entities, old(reader.entities));
      if !u.Value? {
        return if u.Stopped? then Stopped else Malformed(u.why);
      }
      if u.value != 0x22 && u.value != 0x27 {
        return Malformed(BadMarkup);
      }
      ghost var stack := reader.entities;
      out := reader.ReadValue(u.value, |reader.entities|, normalize, references);
      if out.Value? {
        assert reader.entities[..|stack|] == reader.entities && stack[..|stack|] == stack;
        SameStackTransitive(reader.entities, stack, old(reader.entities));
      }
    }

    // Attributes

    /** Storage for one attribute more; while a larger array is filled both are charged. */
    method GrowAttributes(capacity: nat, count: nat) returns (ok: bool, capacity': nat)
      requires reader.Valid() && !reader.closed && count <= capacity && capacity * ATTRIBUTE_BYTES <= reader.tokenOwned
      requires reader.account.ample || count < maxAttributes
      modifies reader`tokenOwned, reader.account
      ensures reader.Valid() && reader.Others() == old(reader.Others())
      ensures reader.tokenOwned == old(reader.tokenOwned) + (capacity' - capacity) * ATTRIBUTE_BYTES
      ensures capacity' >= capacity && (ok ==> count < capacity')
      ensures reader.account.ample ==> ok
    {
      hide SumRetained;
      if count < capacity {
        return true, capacity;
      }
      capacity' := if capacity * 2 < 4 then 4 else capacity * 2;
      if !reader.account.ample && capacity' > maxAttributes {
        capacity' := maxAttributes;
      }
      ok := reader.TokenReserve(capacity' * ATTRIBUTE_BYTES);
      if !ok {
        return false, capacity;
      }
      reader.ReturnToken(capacity * ATTRIBUTE_BYTES);
    }

    method Normalized(value: seq<byte>) returns (out: Outcome<seq<byte>>)
      requires reader.Valid() && !reader.closed
      modifies reader`tokenOwned, reader.account
      ensures reader.Valid() && reader.Others() == old(reader.Others()) && reader.tokenOwned >= old(reader.tokenOwned)
      ensures out.Value? ==> out.value == Joined(Words(value))
      ensures !out.Malformed? && (reader.account.ample ==> !out.Stopped?)
    {
      hide SumRetained;
      hide Joined;
      hide Words;
      var admitted := reader.account.Admit();
      if !admitted || !reader.account.Fits(|value|) {
        return Stopped;
      }
      var reserved := reader.TokenReserve(64 + 2 * |value|);
      if !reserved {
        return Stopped;
      }
      var text := Tokenize(value);
      out := Value(text);
    }

    /** The bytes of an attribute value as an attribute holds them. */
    method Finished(value: seq<byte>, tokenized: bool) returns (out: Outcome<string>)
      requires reader.Valid() && !reader.closed
      modifies reader`tokenOwned, reader.account
      ensures reader.Valid() && reader.Others() == old(reader.Others()) && reader.tokenOwned >= old(reader.tokenOwned)
      ensures out.Value? ==> out.value == Finish(value, tokenized)
      ensures !out.Malformed? && (reader.account.ample ==> !out.Stopped?)
    {
      hide Joined;
      hide Words;
      if !tokenized {
        return Value(Text(value));
      }
      var text := Normalized(value);
      out := if text.Value? then Value(Text(text.value)) else Stopped;
    }

    /** The next attribute of a start tag: name, equals sign and quoted value. */
    method ReadAttribute() returns (out: Outcome<Specified>)
      requires reader.Valid() && !reader.closed && !reader.needEnd
      modifies reader`entities, reader`physical, reader`tokenOwned, reader`retained, reader.account
      ensures reader.Valid() && reader.Others() == old(reader.Others())
      ensures out.Value? ==> SameStack(reader.entities, old(reader.entities)) && reader.tokenOwned >= old(reader.tokenOwned)
      ensures Meets(out, AttributeAt(old(Here()), old(reader.Remaining())), reader.Remaining())
      ensures reader.account.ample ==> !out.Stopped?
    {
      hide SameStack;
      hide RemainingAt;
      hide QualifiedName;
      hide NameAt;
      hide EqualsAt;
      hide QuotedAt;
      hide PlaceOf;
      var lexical := ReadName();
      PlacePhysical(reader.store, old(reader.entities));
      if !lexical.Value? {
        return if lexical.Stopped? then Stopped else Malformed(lexical.why);
      }
      SamePlace(reader.store, reader.entities, old(reader.entities));
      var name := QualifiedName(lexical.value);
      if name.Unqualifiable? {
        return Malformed(BadMarkup);
      }
      ghost var first := reader.entities;
      var equals := EqualsSign();
      SameStackTransitive(reader.entities, first, old(reader.entities));
      if !equals.Value? {
        return if equals.Stopped? then Stopped else Malformed(equals.why);
      }
      SamePlace(reader.store, reader.entities, old(reader.entities));
      ghost var second := reader.entities;
      var value := Quoted(true, true);
      if !value.Value? {
        return if value.Stopped? then Stopped else Malformed(value.why);
      }
      SameStackTransitive(reader.entities, second, old(reader.entities));
      out := Value(Specified(name.name, lexical.value, value.value));
    }

    /** An equals sign with white space around it. */
    method EqualsSign() returns (out: Outcome<()>)
      requires reader.Valid() && !reader.closed
      modifies reader`entities, reader`physical
      ensures reader.Valid() && reader.Others() == old(reader.Others()) && SameStack(reader.entities, old(reader.entities))
      ensures Meets(out, EqualsAt(old(reader.Remaining()), old(reader.entities) == []), reader.Remaining())
      ensures reader.account.ample ==> !out.Stopped?
    {
      hide Agrees;
      hide SumRetained;
      hide Distinct;
      hide DepthsNested;
      hide Named;
      hide Readable;
      hide Legible;
      hide SameStack;
      hide RemainingAt;
      hide BlankAt;
      hide Expect;
      var spaces := Spaces();
      if !spaces.Value? {
        return if spaces.Stopped? then Stopped else Malformed(spaces.why);
      }
      ghost var first := reader.entities;
      out := Literal([EQUALS]);
      SameStackTransitive(reader.entities, first, old(reader.entities));
      if !out.Value? {
        return;
      }
      ghost var second := reader.entities;
      SamePlace(reader.store, second, old(reader.entities));
      spaces := Spaces();
      SameStackTransitive(reader.entities, second, old(reader.entities));
      out := if spaces.Value? then Value(()) else if spaces.Stopped? then Stopped else Malformed(spaces.why);
    }

    method ReadFollowing() returns (out: Outcome<Following>)
      requires reader.Valid() && !reader.closed
      modifies reader`entities, reader`physical
      ensures reader.Valid() && reader.Others() == old(reader.Others()) && SameStack(reader.entities, old(reader.entities))
      ensures Meets(out, FollowingAt(old(reader.Remaining()), old(reader.entities) == []), reader.Remaining())
      ensures reader.account.ample ==> !out.Stopped?
    {
      hide Agrees;
      hide SumRetained;
      hide Distinct;
      hide DepthsNested;
      hide Named;
      hide Readable;
      hide Legible;
      hide SameStack;
      hide RemainingAt;
      hide BlankAt;
      hide Expect;
      var separated := Spaces();
      if !separated.Value? {
        return if separated.Stopped? then Stopped else Malformed(separated.why);
      }
      ghost var first := reader.entities;
      var u := Look();
      SameStackTransitive(reader.entities, first, old(reader.entities));
      if !u.Value? {
        return if u.Stopped? then Stopped else Malformed(u.why);
      }
      if u.value != GREATER && u.value != SOLIDUS {
        return if separated.value then Value(Another) else Malformed(BadMarkup);
      }
      ghost var second := reader.entities;
      var closing := Literal(if u.value == GREATER then [GREATER] else [SOLIDUS, GREATER]);
      SameStackTransitive(reader.entities, second, old(reader.entities));
      out := if closing.Value? then Value(Closes(u.value == SOLIDUS)) else if closing.Stopped? then Stopped else Malformed(closing.why);
    }

    /** The attributes of a start tag up to its end, and the capacity of their storage. */
    method ReadAttributes() returns (out: Outcome<Listed>, capacity: nat)
      requires reader.Valid() && !reader.closed && !reader.needEnd
      modifies reader`entities, reader`physical, reader`tokenOwned, reader`retained, reader.account
      ensures reader.Valid() && reader.Others() == old(reader.Others())
      ensures out.Value? ==> SameStack(reader.entities, old(reader.entities))
      ensures out.Value? ==> |out.value.specified| <= capacity && capacity * ATTRIBUTE_BYTES <= reader.tokenOwned
      ensures Meets(out, AttributesAt(old(Here()), old(reader.Remaining())), reader.Remaining())
      ensures reader.account.ample ==> !out.Stopped?
    {
      hide SumRetained;
      hide Agrees;
      hide Distinct;
      hide DepthsNested;
      hide Named;
      hide Readable;
      hide Legible;
      hide SameStack;
      hide RemainingAt;
      hide FollowingAt;
      hide AttributeAt;
      hide AttributesAt;
      hide PlaceOf;
      ghost var place, goal := Here(), AttributesAt(Here(), reader.Remaining());
      var specified: seq<Specified> := [];
      capacity := 0;
      SameStackReflexive(reader.entities);
      EnlistedNone(goal);
      while true
        invariant reader.Valid() && reader.Others() == old(reader.Others()) && SameStack(reader.entities, old(reader.entities))
        invariant |specified| <= capacity && capacity * ATTRIBUTE_BYTES <= reader.tokenOwned
        invariant goal == Enlisted(specified, AttributesAt(place, reader.Remaining()))
        decreases |reader.Remaining()|
      {
        ghost var stack := reader.entities;
        SamePlace(reader.store, stack, old(reader.entities));
        PlacePhysical(reader.store, stack);
        AttributesStep(place, reader.Remaining(), specified);
        var following := ReadFollowing();
        SameStackTransitive(reader.entities, stack, old(reader.entities));
        if !following.Value? {
          return if following.Stopped? then Stopped else Malformed(following.why), capacity;
        }
        if following.value.Closes? {
          return Value(Listed(specified, following.value.empty)), capacity;
        }
        var admitted := reader.account.Admit();
        if !admitted || (!reader.account.ample && |specified| >= maxAttributes) {
          return Stopped, capacity;
        }
        stack := reader.entities;
        SamePlace(reader.store, stack, old(reader.entities));
        var attribute := ReadAttribute();
        if !attribute.Value? {
          return if attribute.Stopped? then Stopped else Malformed(attribute.why), capacity;
        }
        SameStackTransitive(reader.entities, stack, old(reader.entities));
        var ok;
        ok, capacity := GrowAttributes(capacity, |specified|);
        if !ok {
          return Stopped, capacity;
        }
        specified := specified + [attribute.value];
      }
    }

    /** The specified attributes with their values as declared. */
    method FinishSpecified(declared: seq<AttributeDeclaration>, specified: seq<Specified>) returns (out: Outcome<seq<Attribute>>)
      requires reader.Valid() && !reader.closed
      modifies reader`tokenOwned, reader.account
      ensures reader.Valid() && reader.Others() == old(reader.Others()) && reader.tokenOwned >= old(reader.tokenOwned)
      ensures out.Value? ==> out.value == Given(declared, specified)
      ensures !out.Malformed? && (reader.account.ample ==> !out.Stopped?)
    {
      hide Agrees;
      hide Distinct;
      hide DepthsNested;
      hide Named;
      hide Readable;
      hide Legible;
      hide Finish;
      hide DeclaredType;
      hide SumRetained;
      var attributes: seq<Attribute> := [];
      for i := 0 to |specified|
        invariant reader.Valid() && reader.Others() == old(reader.Others()) && reader.tokenOwned >= old(reader.tokenOwned)
        invariant attributes == Given(declared, specified)[..i]
      {
        var admitted := reader.account.Admit();
        var name := specified[i].name;
        var reserved := true;
        if admitted && name.space != "" {
          reserved := reader.TokenReserve(|name.space| + 1 + |name.local|);
        }
        if !admitted || !reserved {
          return Stopped;
        }
        var value := Finished(specified[i].value, DeclaredType(declared, specified[i].lexical));
        if !value.Value? {
          return Stopped;
        }
        attributes := attributes + [Attribute(name, value.value)];
      }
      out := Value(attributes);
    }

    /** The value of a declared default, read over a frame of its own. */
    method ReadDefault(declaration: AttributeDeclaration) returns (out: Outcome<string>)
      requires reader.Valid() && !reader.closed && !reader.needEnd && declaration.preset.Default?
      modifies reader`entities, reader`physical, reader`tokenOwned, reader`retained, reader.account
      ensures reader.Valid() && reader.Others() == old(reader.Others())
      ensures out.Value? ==> reader.entities == old(reader.entities) && reader.physical == old(reader.physical)
      ensures out.Value? ==> reader.tokenOwned >= old(reader.tokenOwned)
      ensures match out
              case Stopped => true
              case Malformed(why) => DefaultAt(old(Here()), declaration) == Fails(why)
              case Value(v) => DefaultAt(old(Here()), declaration).Parsed? && v == DefaultAt(old(Here()), declaration).value
      ensures reader.account.ample ==> !out.Stopped?
    {
      hide SumRetained;
      hide Expand;
      hide Agrees;
      hide Distinct;
      hide DepthsNested;
      hide Named;
      hide Active;
      hide Readable;
      hide Legible;
      hide EncodeAll;
      hide Units;
      hide Finish;
      var raw := reader.ReadDefaultValue(declaration.preset.raw, declaration.externalMarkup);
      if !raw.Value? {
        return if raw.Stopped? then Stopped else Malformed(raw.why);
      }
      out := Finished(raw.value, declaration.tokenized);
    }

    /** One declared default that is not specified. */
    method AddDefault(declaration: AttributeDeclaration, name: QName, attributes: seq<Attribute>, capacity: nat)
      returns (out: Outcome<seq<Attribute>>, capacity': nat)
      requires reader.Valid() && !reader.closed && !reader.needEnd && declaration.preset.Default?
      requires |attributes| <= capacity && capacity * ATTRIBUTE_BYTES <= reader.tokenOwned
      modifies reader`entities, reader`physical, reader`tokenOwned, reader`retained, reader.account
      ensures reader.Valid() && reader.Others() == old(reader.Others())
      ensures out.Value? ==> reader.entities == old(reader.entities) && reader.physical == old(reader.physical)
      ensures out.Value? ==> |out.value| <= capacity' && capacity' * ATTRIBUTE_BYTES <= reader.tokenOwned
      ensures match out
              case Stopped => true
              case Malformed(why) => DefaultAt(old(Here()), declaration) == Fails(why)
              case Value(all) => var value := DefaultAt(old(Here()), declaration);
                value.Parsed? && all == attributes + [Attribute(name, value.value)]
      ensures reader.account.ample ==> !out.Stopped?
    {
      hide SumRetained;
      hide Agrees;
      hide Distinct;
      hide DepthsNested;
      hide Named;
      hide Readable;
      hide Legible;
      hide DefaultAt;
      hide PlaceOf;
      capacity' := capacity;
      if !reader.account.ample && |attributes| >= maxAttributes {
        return Stopped, capacity;
      }
      var value := ReadDefault(declaration);
      if !value.Value? {
        return if value.Stopped? then Stopped else Malformed(value.why), capacity;
      }
      var ok;
      ok, capacity' := GrowAttributes(capacity, |attributes|);
      if ok {
        ok := reader.TokenReserve(ATTRIBUTE_BYTES);
      }
      out := if ok then Value(attributes + [Attribute(name, value.value)]) else Stopped;
    }

    /** The attributes of an element: those specified, in order, then declared defaults for others. */
    method ApplyDeclarations(element: Name, specified: seq<Specified>, capacity: nat) returns (out: Outcome<seq<Attribute>>)
      requires reader.Valid() && !reader.closed && !reader.needEnd
      requires |specified| <= capacity && capacity * ATTRIBUTE_BYTES <= reader.tokenOwned
      modifies reader`entities, reader`physical, reader`tokenOwned, reader`retained, reader.account
      ensures reader.Valid() && reader.Others() == old(reader.Others())
      ensures out.Value? ==> reader.entities == old(reader.entities) && reader.physical == old(reader.physical)
      ensures Meets(out, DeclaredAt(old(Here()), element, specified, old(reader.Remaining())), old(reader.Remaining()))
      ensures reader.account.ample ==> !out.Stopped?
    {
      hide SumRetained;
      hide Agrees;
      hide Distinct;
      hide DepthsNested;
      hide Named;
      hide Readable;
      hide Legible;
      hide DefaultsAt;
      hide PlaceOf;
      hide Given;
      var declared := Declarations(reader.store, element);
      PlaceStore(reader.store, reader.entities);
      if declared == [] && reader.store.attributesComplete {
        DefaultsNone(Here(), declared, SpecifiedNames(specified), reader.Remaining(), Given(declared, specified));
        return Value(Given(declared, specified));
      }
      var reserved := reader.TokenReserve(64 + 128 * |specified|);
      if !reserved {
        return Stopped;
      }
      out := FinishSpecified(declared, specified);
      if out.Value? {
        out := AddDefaults(declared, SpecifiedNames(specified), out.value, capacity);
      }
    }

    method AddDefaults(declared: seq<AttributeDeclaration>, present: seq<QName>, given: seq<Attribute>, capacity: nat)
      returns (out: Outcome<seq<Attribute>>)
      requires reader.Valid() && !reader.closed && !reader.needEnd
      requires |given| <= capacity && capacity * ATTRIBUTE_BYTES <= reader.tokenOwned
      modifies reader`entities, reader`physical, reader`tokenOwned, reader`retained, reader.account
      ensures reader.Valid() && reader.Others() == old(reader.Others())
      ensures out.Value? ==> reader.entities == old(reader.entities) && reader.physical == old(reader.physical)
      ensures Meets(out, Prefixed(given, DefaultsAt(old(Here()), declared, present, old(reader.Remaining()))), old(reader.Remaining()))
      ensures reader.account.ample ==> !out.Stopped?
    {
      hide SumRetained;
      hide Agrees;
      hide Distinct;
      hide DepthsNested;
      hide Named;
      hide Readable;
      hide Legible;
      hide DefaultAt;
      hide DefaultsAt;
      hide PlaceOf;
      hide QualifiedName;
      hide RemainingAt;
      ghost var place, input := Here(), reader.Remaining();
      ghost var goal := Prefixed(given, DefaultsAt(place, declared, present, input));
      var attributes, room := given, capacity;
      assert declared[0..] == declared;
      for i := 0 to |declared|
        invariant reader.Valid() && reader.Others() == old(reader.Others())
        invariant reader.entities == old(reader.entities) && reader.physical == old(reader.physical)
        invariant |attributes| <= room && room * ATTRIBUTE_BYTES <= reader.tokenOwned
        invariant goal == Prefixed(attributes, DefaultsAt(place, declared[i..], present, input))
      {
        DefaultsStep(place, declared[i..], present, input, attributes);
        assert declared[i..][1..] == declared[i + 1..];
        var admitted := reader.account.Admit();
        if !admitted {
          return Stopped;
        }
        if declared[i].preset.NoDefault? {
          continue;
        }
        var name := QualifiedName(declared[i].name);
        if name.Unqualifiable? {
          return Malformed(BadMarkup);
        }
        if name.name !in present {
          out, room := AddDefault(declared[i], name.name, attributes, room);
          if !out.Value? {
            return;
          }
          attributes := out.value;
        }
      }
      DefaultsNone(place, declared[|declared|..], present, input, attributes);
      out := Value(attributes);
    }

    // Tags

    /** A start tag up to its end, before it is opened. */
    method ReadTag() returns (out: Outcome<Tag>)
      requires reader.Valid() && !reader.closed && !reader.needEnd
      modifies reader`entities, reader`physical, reader`tokenOwned, reader`retained, reader.account
      ensures reader.Valid() && reader.Others() == old(reader.Others())
      ensures out.Value? ==> SameStack(reader.entities, old(reader.entities))
      ensures Meets(out, TagAt(old(Here()), Free(), old(reader.Remaining())), reader.Remaining())
      ensures out.Value? ==> Free()
      ensures reader.account.ample ==> !out.Stopped?
    {
      hide SameStack;
      hide RemainingAt;
      hide QualifiedName;
      hide NameAt;
      hide AttributesAt;
      hide DeclaredAt;
      hide PlaceOf;
      PlacePhysical(reader.store, reader.entities);
      var lexical := ReadName();
      if !lexical.Value? {
        return if lexical.Stopped? then Stopped else Malformed(lexical.why);
      }
      var name := QualifiedName(lexical.value);
      if name.Unqualifiable? {
        return Malformed(BadMarkup);
      }
      if reader.rootClosed || |reader.elements| >= reader.maxDepth {
        return Malformed(TagForbidden);
      }
      ghost var first := reader.entities;
      SamePlace(reader.store, first, old(reader.entities));
      var listed, capacity := ReadAttributes();
      if !listed.Value? {
        return if listed.Stopped? then Stopped else Malformed(listed.why);
      }
      SameStackTransitive(reader.entities, first, old(reader.entities));
      SamePlace(reader.store, reader.entities, old(reader.entities));
      var attributes := ApplyDeclarations(lexical.value, listed.value.specified, capacity);
      out := if attributes.Value? then Value(Tag(name.name, attributes.value, listed.value.empty))
             else if attributes.Stopped? then Stopped else Malformed(attributes.why);
    }

    /** Whether another element may begin. */
    ghost predicate Free()
      reads reader`rootClosed, reader`elements
    {
      !reader.rootClosed && |reader.elements| < reader.maxDepth
    }

    /** The rest of an end tag. */
    method ReadEndTag() returns (out: Outcome<QName>)
      requires reader.Valid() && !reader.closed
      modifies reader`entities, reader`physical, reader`tokenOwned, reader.account
      ensures reader.Valid() && reader.Others() == old(reader.Others()) && SameStack(reader.entities, old(reader.entities))
      ensures Meets(out, EndTagAt(old(reader.Remaining()), old(reader.entities) == []), reader.Remaining())
      ensures reader.account.ample ==> !out.Stopped?
    {
      hide SameStack;
      hide RemainingAt;
      hide QualifiedName;
      hide NameAt;
      hide BlankAt;
      hide Expect;
      var lexical := ReadName();
      if !lexical.Value? {
        return if lexical.Stopped? then Stopped else Malformed(lexical.why);
      }
      var name := QualifiedName(lexical.value);
      if name.Unqualifiable? {
        return Malformed(BadMarkup);
      }
      ghost var first := reader.entities;
      SamePlace(reader.store, first, old(reader.entities));
      var spaces := Spaces();
      SameStackTransitive(reader.entities, first, old(reader.entities));
      if !spaces.Value? {
        return if spaces.Stopped? then Stopped else Malformed(spaces.why);
      }
      ghost var second := reader.entities;
      var closing := Literal([GREATER]);
      SameStackTransitive(reader.entities, second, old(reader.entities));
      out := if closing.Value? then Value(name.name) else if closing.Stopped? then Stopped else Malformed(closing.why);
    }

    // Text of markup

    /** Appends to a builder that belongs to the current token. */
    method Put(b: Builder, ghost text: seq<Rune>, c: Rune) returns (ok: bool, b': Builder)
      requires reader.Valid() && !reader.closed && reader.Holds(b, text, 0) && IsXmlChar(c)
      modifies reader`tokenOwned, reader.account
      ensures reader.Valid() && reader.Others() == old(reader.Others())
      ensures ok ==> reader.Holds(b', text + [c], 0)
      ensures reader.account.ample ==> ok
    {
      hide SumRetained;
      hide EncodeRune;
      hide EncodeAll;
      ok, b' := reader.AppendValue(b, text, c, 0);
    }

    /** Closing brackets that turned out to be data. */
    method PutBrackets(b: Builder, ghost text: seq<Rune>, brackets: nat) returns (ok: bool, b': Builder)
      requires reader.Valid() && !reader.closed && reader.Holds(b, text, 0) && brackets <= 2
      modifies reader`tokenOwned, reader.account
      ensures reader.Valid() && reader.Others() == old(reader.Others())
      ensures ok ==> reader.Holds(b', text + Closing(brackets), 0)
      ensures reader.account.ample ==> ok
    {
      hide Agrees;
      hide SumRetained;
      hide Distinct;
      hide DepthsNested;
      hide Named;
      hide Readable;
      hide Legible;
      ok, b' := true, b;
      assert text + Closing(0) == text;
      for i := 0 to brackets
        invariant ok && reader.Valid() && reader.Others() == old(reader.Others())
        invariant reader.Holds(b', text + Closing(i), 0)
      {
        ok, b' := Put(b', text + Closing(i), CLOSE_BRACKET);
        if !ok {
          return;
        }
        assert text + Closing(i) + [CLOSE_BRACKET] == text + Closing(i + 1);
      }
    }

    /** A comment up to its end; two hyphens may stand only there. */
    method Comment() returns (out: Outcome<seq<byte>>)
      requires reader.Valid() && !reader.closed
      modifies reader`entities, reader`physical, reader`tokenOwned, reader.account
      ensures reader.Valid() && reader.Others() == old(reader.Others()) && SameStack(reader.entities, old(reader.entities))
      ensures Meets(out, Encoded(CommentAt(old(reader.Remaining()))), reader.Remaining())
      ensures reader.account.ample ==> !out.Stopped?
    {
      hide Agrees;
      hide SumRetained;
      hide Distinct;
      hide DepthsNested;
      hide Named;
      hide Readable;
      hide Legible;
      hide SameStack;
      hide RemainingAt;
      hide CommentAt;
      hide EncodeAll;
      SameStackReflexive(reader.entities);
      ghost var goal, text: seq<Rune> := CommentAt(reader.Remaining()), [];
      var b, dashes := Builder([], VALUE_SCRATCH, true), 0;
      EncodeNothing();
      PendingNone(HYPHEN, reader.Remaining());
      PrefixedNone(goal);
      while true
        invariant reader.Valid() && reader.Others() == old(reader.Others()) && SameStack(reader.entities, old(reader.entities))
        invariant reader.Holds(b, text, 0) && 0 <= dashes <= 2
        invariant goal == Prefixed(text, CommentAt(Repeated(HYPHEN, dashes) + reader.Remaining()))
        decreases |reader.Remaining()|
      {
        ghost var stack, input := reader.entities, reader.Remaining();
        CommentStep(dashes, input);
        var u := Must();
        SameStackTransitive(reader.entities, stack, old(reader.entities));
        if !u.Value? {
          return if u.Stopped? then Stopped else Malformed(u.why);
        }
        if dashes == 2 {
          assert text + [] == text;
          return if u.value == GREATER then Value(b.data) else Malformed(BadMarkup);
        }
        if u.value == HYPHEN {
          RepeatedMore(HYPHEN, dashes, input);
          dashes := dashes + 1;
          continue;
        }
        ghost var more := if dashes == 1 then [HYPHEN, u.value] else [u.value];
        PrefixedTwice(text, more, CommentAt(reader.Remaining()));
        PendingNone(HYPHEN, reader.Remaining());
        var ok;
        ok, b := PutComment(b, text, dashes, u.value);
        if !ok {
          return Stopped;
        }
        text, dashes := text + more, 0;
      }
    }

    method PutComment(b: Builder, ghost text: seq<Rune>, dashes: nat, c: Rune) returns (ok: bool, b': Builder)
      requires reader.Valid() && !reader.closed && reader.Holds(b, text, 0) && dashes <= 1 && IsXmlChar(c)
      modifies reader`tokenOwned, reader.account
      ensures reader.Valid() && reader.Others() == old(reader.Others())
      ensures ok ==> reader.Holds(b', text + if dashes == 1 then [HYPHEN, c] else [c], 0)
      ensures reader.account.ample ==> ok
    {
      ghost var written := text;
      ok, b' := true, b;
      if dashes != 0 {
        ok, b' := Put(b, text, HYPHEN);
        written := text + [HYPHEN];
        assert written + [c] == text + [HYPHEN, c];
      }
      if ok {
        ok, b' := Put(b', written, c);
      }
    }

    /** A CDATA section up to its end. */
    method CData() returns (out: Outcome<seq<byte>>)
      requires reader.Valid() && !reader.closed
      modifies reader`entities, reader`physical, reader`tokenOwned, reader.account
      ensures reader.Valid() && reader.Others() == old(reader.Others()) && SameStack(reader.entities, old(reader.entities))
      ensures var section := SectionAt(old(reader.Remaining()));
              Meets(out, if section.Parsed? && reader.elements == [] then Fails(BadText) else Encoded(section), reader.Remaining())
      ensures reader.account.ample ==> !out.Stopped?
    {
      hide Agrees;
      hide SumRetained;
      hide Distinct;
      hide DepthsNested;
      hide Named;
      hide Readable;
      hide Legible;
      hide SameStack;
      hide RemainingAt;
      hide SectionAt;
      hide EncodeAll;
      hide Closing;
      SameStackReflexive(reader.entities);
      ghost var goal, text: seq<Rune> := SectionAt(reader.Remaining()), [];
      var b, brackets := Builder([], VALUE_SCRATCH, true), 0;
      EncodeNothing();
      PendingNone(CLOSE_BRACKET, reader.Remaining());
      PrefixedNone(goal);
      while true
        invariant reader.Valid() && reader.Others() == old(reader.Others()) && SameStack(reader.entities, old(reader.entities))
        invariant reader.Holds(b, text, 0) && 0 <= brackets <= 2
        invariant goal == Prefixed(text, SectionAt(Repeated(CLOSE_BRACKET, brackets) + reader.Remaining()))
        decreases |reader.Remaining()|
      {
        ghost var stack, input := reader.entities, reader.Remaining();
        SectionStep(brackets, input);
        var u := Must();
        SameStackTransitive(reader.entities, stack, old(reader.entities));
        if !u.Value? {
          return if u.Stopped? then Stopped else Malformed(u.why);
        }
        if u.value == GREATER && brackets == 2 {
          assert text + [] == text;
          return if reader.elements == [] then Malformed(BadText) else Value(b.data);
        }
        if u.value == CLOSE_BRACKET && brackets < 2 {
          RepeatedMore(CLOSE_BRACKET, brackets, input);
          brackets := brackets + 1;
          continue;
        }
        ghost var more := if u.value == CLOSE_BRACKET then [CLOSE_BRACKET] else Closing(brackets) + [u.value];
        PrefixedTwice(text, more, SectionAt(reader.Remaining()));
        PrefixedTwice(text, more, SectionAt(Repeated(CLOSE_BRACKET, 2) + reader.Remaining()));
        PendingNone(CLOSE_BRACKET, reader.Remaining());
        var ok;
        ok, b := PutSection(b, text, brackets, u.value);
        if !ok {
          return Stopped;
        }
        text := text + more;
        if u.value != CLOSE_BRACKET {
          brackets := 0;
        }
      }
    }

    method PutSection(b: Builder, ghost text: seq<Rune>, brackets: nat, c: Rune) returns (ok: bool, b': Builder)
      requires reader.Valid() && !reader.closed && reader.Holds(b, text, 0) && brackets <= 2 && IsXmlChar(c)
      modifies reader`tokenOwned, reader.account
      ensures reader.Valid() && reader.Others() == old(reader.Others())
      ensures ok ==> reader.Holds(b', text + if c == CLOSE_BRACKET then [CLOSE_BRACKET] else Closing(brackets) + [c], 0)
      ensures reader.account.ample ==> ok
    {
      hide Closing;
      ghost var written := text;
      ok, b' := true, b;
      if c != CLOSE_BRACKET {
        ok, b' := PutBrackets(b, text, brackets);
        written := text + Closing(brackets);
        assert written + [c] == text + (Closing(brackets) + [c]);
      }
      if ok {
        ok, b' := Put(b', written, c);
      }
    }

    /** The data of a processing instruction up to its end. */
    method InstructionData(separated: bool) returns (out: Outcome<seq<byte>>)
      requires reader.Valid() && !reader.closed
      modifies reader`entities, reader`physical, reader`tokenOwned, reader.account
      ensures reader.Valid() && reader.Others() == old(reader.Others()) && SameStack(reader.entities, old(reader.entities))
      ensures Meets(out, Encoded(InstructionDataAt(old(reader.Remaining()), separated)), reader.Remaining())
      ensures reader.account.ample ==> !out.Stopped?
    {
      hide Agrees;
      hide SumRetained;
      hide Distinct;
      hide DepthsNested;
      hide Named;
      hide Readable;
      hide Legible;
      hide SameStack;
      hide RemainingAt;
      hide InstructionDataAt;
      hide EncodeAll;
      SameStackReflexive(reader.entities);
      ghost var goal, text: seq<Rune> := InstructionDataAt(reader.Remaining(), separated), [];
      var b, question := Builder([], VALUE_SCRATCH, true), false;
      EncodeNothing();
      PendingNone(QUESTION, reader.Remaining());
      PrefixedNone(goal);
      while true
        invariant reader.Valid() && reader.Others() == old(reader.Others()) && SameStack(reader.entities, old(reader.entities))
        invariant reader.Holds(b, text, 0)
        invariant goal == Prefixed(text, InstructionDataAt(Repeated(QUESTION, if question then 1 else 0) + reader.Remaining(), separated))
        decreases |reader.Remaining()|
      {
        ghost var stack, input := reader.entities, reader.Remaining();
        InstructionStep(question, input, separated);
        var u := Must();
        SameStackTransitive(reader.entities, stack, old(reader.entities));
        if !u.Value? {
          return if u.Stopped? then Stopped else Malformed(u.why);
        }
        if question {
          if u.value == GREATER {
            assert text + [] == text;
            return Value(b.data);
          }
          if !separated {
            return Malformed(BadMarkup);
          }
          var ok;
          ok, b := Put(b, text, QUESTION);
          if !ok {
            return Stopped;
          }
          PrefixedTwice(text, [QUESTION], InstructionDataAt(input, separated));
          text := text + [QUESTION];
        }
        PendingNone(QUESTION, input);
        InstructionStep(false, input, separated);
        if u.value == QUESTION {
          RepeatedMore(QUESTION, 0, input);
        } else {
          var ok;
          ok, b := Put(b, text, u.value);
          if !ok {
            return Stopped;
          }
          PrefixedTwice(text, [u.value], InstructionDataAt(reader.Remaining(), separated));
          PendingNone(QUESTION, reader.Remaining());
          text := text + [u.value];
        }
        question := u.value == QUESTION;
      }
    }

    /** A processing instruction or the XML declaration. */
    method Instruction(first: bool) returns (out: Outcome<Token>)
      requires reader.Valid() && !reader.closed && !reader.needEnd
      modifies reader`entities, reader`physical, reader`tokenOwned, reader`retained, reader.account
      ensures reader.Valid() && reader.Others() == old(reader.Others())
      ensures out.Value? ==> SameStack(reader.entities, old(reader.entities)) && (out.value.DeclarationToken? ==> first)
      ensures Reads(out, InstructionAt(old(reader.Remaining()), old(reader.entities) == []), reader.Remaining())
      ensures reader.account.ample ==> !out.Stopped?
    {
      hide SameStack;
      hide RemainingAt;
      hide NameAt;
      hide BlankAt;
      hide InstructionDataAt;
      hide EncodeAll;
      hide IsNCName;
      var target := ReadName();
      if !target.Value? {
        return if target.Stopped? then Stopped else Malformed(target.why);
      }
      if !IsNCName(target.value) {
        return Malformed(BadMarkup);
      }
      ghost var second := reader.entities;
      SamePlace(reader.store, second, old(reader.entities));
      if IsXml(target.value) {
        if target.value != [0x78, 0x6D, 0x6C] {
          return Malformed(BadMarkup);
        }
        var declared := Declaration(first);
        if !declared.Value? {
          return if declared.Stopped? then Stopped else Malformed(declared.why);
        }
        out := Value(DeclarationToken);
      } else {
        var data := AfterTarget();
        if !data.Value? {
          return if data.Stopped? then Stopped else Malformed(data.why);
        }
        out := Value(InstructionToken(target.value, data.value));
      }
      SameStackTransitive(reader.entities, second, old(reader.entities));
    }

    method AfterTarget() returns (out: Outcome<seq<byte>>)
      requires reader.Valid() && !reader.closed
      modifies reader`entities, reader`physical, reader`tokenOwned, reader.account
      ensures reader.Valid() && reader.Others() == old(reader.Others()) && SameStack(reader.entities, old(reader.entities))
      ensures Meets(out, InstructionRestAt(old(reader.Remaining()), old(reader.entities) == []), reader.Remaining())
      ensures reader.account.ample ==> !out.Stopped?
    {
      hide SameStack;
      hide RemainingAt;
      hide BlankAt;
      hide InstructionDataAt;
      hide EncodeAll;
      var separated := Spaces();
      if !separated.Value? {
        return if separated.Stopped? then Stopped else Malformed(separated.why);
      }
      ghost var first := reader.entities;
      var u := Look();
      SameStackTransitive(reader.entities, first, old(reader.entities));
      if !u.Value? {
        return if u.Stopped? then Stopped else Malformed(u.why);
      }
      if !separated.value && u.value != QUESTION {
        return Malformed(BadMarkup);
      }
      ghost var second := reader.entities;
      out := InstructionData(separated.value);
      SameStackTransitive(reader.entities, second, old(reader.entities));
    }

    /** The pseudo-attributes of an XML declaration: version, encoding and standalone in order. */
    method Declaration(first: bool) returns (out: Outcome<()>)
      requires reader.Valid() && !reader.closed && !reader.needEnd
      modifies reader`entities, reader`physical, reader`tokenOwned, reader`retained, reader.account
      ensures reader.Valid() && reader.Others() == old(reader.Others())
      ensures out.Value? ==> SameStack(reader.entities, old(reader.entities)) && first
      ensures reader.account.ample ==> !out.Stopped?
    {
      hide Version;
      hide EncodingName;
      hide BlankAt;
      hide NameAt;
      hide Expect;
      hide Agrees;
      hide Distinct;
      hide DepthsNested;
      hide Named;
      hide Readable;
      hide Legible;
      hide SumRetained;
      hide SameStack;
      hide RemainingAt;
      var separated := Spaces();
      if !separated.Value? {
        return if separated.Stopped? then Stopped else Malformed(separated.why);
      }
      if !separated.value {
        return Malformed(BadMarkup);
      }
      var index, encodingSeen := 0, false;
      var version, encoding, standalone: seq<byte> := [], [], [];
      while true
        invariant reader.Valid() && reader.Others() == old(reader.Others()) && SameStack(reader.entities, old(reader.entities))
        invariant 0 <= index <= 3
        decreases |reader.Remaining()|
      {
        ghost var stack := reader.entities;
        var u := Look();
        SameStackTransitive(reader.entities, stack, old(reader.entities));
        if !u.Value? {
          return if u.Stopped? then Stopped else Malformed(u.why);
        }
        if u.value == QUESTION {
          break;
        }
        stack := reader.entities;
        var pseudo := PseudoAttribute();
        if !pseudo.Value? {
          return if pseudo.Stopped? then Stopped else Malformed(pseudo.why);
        }
        SameStackTransitive(reader.entities, stack, old(reader.entities));
        if pseudo.value.0 == VERSION && index == 0 {
          version, index := pseudo.value.1, 1;
        } else if pseudo.value.0 == ENCODING && index == 1 {
          encoding, encodingSeen, index := pseudo.value.1, true, 2;
        } else if pseudo.value.0 == STANDALONE && (index == 1 || index == 2) {
          standalone, index := pseudo.value.1, 3;
        } else {
          return Malformed(BadMarkup);
        }
        stack := reader.entities;
        var next := SeparatedOrEnd();
        SameStackTransitive(reader.entities, stack, old(reader.entities));
        if !next.Value? {
          return next;
        }
      }
      ghost var stack := reader.entities;
      var closing := Literal([QUESTION, GREATER]);
      SameStackTransitive(reader.entities, stack, old(reader.entities));
      if !closing.Value? {
        return if closing.Stopped? then Stopped else Malformed(closing.why);
      }
      if !first || !Version(version) || (index == 3 && standalone != YES && standalone != NO) || (encodingSeen && !EncodingName(encoding)) {
        return Malformed(BadMarkup);
      }
      var supported: bool := *;
      if !supported {
        return Malformed(BadMarkup);
      }
      var kept := reader.TokenReserve(2 * (10 + |version| + (if encoding == [] then 0 else 12 + |encoding|)
                                           + (if standalone == [] then 0 else 14 + |standalone|)));
      out := if kept then Value(()) else Stopped;
    }

    /** One pseudo-attribute. */
    method PseudoAttribute() returns (out: Outcome<(Name, seq<byte>)>)
      requires reader.Valid() && !reader.closed && !reader.needEnd
      modifies reader`entities, reader`physical, reader`tokenOwned, reader`retained, reader.account
      ensures reader.Valid() && reader.Others() == old(reader.Others())
      ensures out.Value? ==> SameStack(reader.entities, old(reader.entities)) && |reader.Remaining()| < |old(reader.Remaining())|
      ensures reader.account.ample ==> !out.Stopped?
    {
      hide SameStack;
      hide RemainingAt;
      hide Agrees;
      hide SumRetained;
      hide Distinct;
      hide DepthsNested;
      hide Named;
      hide Readable;
      hide Legible;
      hide NameAt;
      hide EqualsAt;
      hide QuotedAt;
      var name := ReadName();
      if !name.Value? {
        return if name.Stopped? then Stopped else Malformed(name.why);
      }
      ghost var first := reader.entities;
      var equals := EqualsSign();
      SameStackTransitive(reader.entities, first, old(reader.entities));
      if !equals.Value? {
        return if equals.Stopped? then Stopped else Malformed(equals.why);
      }
      ghost var second := reader.entities;
      var value := Quoted(false, false);
      if !value.Value? {
        return if value.Stopped? then Stopped else Malformed(value.why);
      }
      SameStackTransitive(reader.entities, second, old(reader.entities));
      out := Value((name.value, value.value));
    }

    method SeparatedOrEnd() returns (out: Outcome<()>)
      requires reader.Valid() && !reader.closed
      modifies reader`entities, reader`physical
      ensures reader.Valid() && reader.Others() == old(reader.Others()) && SameStack(reader.entities, old(reader.entities))
      ensures out.Value? ==> |reader.Remaining()| <= |old(reader.Remaining())|
      ensures reader.account.ample ==> !out.Stopped?
    {
      hide Agrees;
      hide SumRetained;
      hide Distinct;
      hide DepthsNested;
      hide Named;
      hide Readable;
      hide Legible;
      hide SameStack;
      hide RemainingAt;
      var separated := Spaces();
      if !separated.Value? {
        return if separated.Stopped? then Stopped else Malformed(separated.why);
      }
      ghost var first := reader.entities;
      var u := Look();
      SameStackTransitive(reader.entities, first, old(reader.entities));
      out := if u.Stopped? then Stopped else if u.Malformed? then Malformed(u.why)
             else if separated.value || u.value == QUESTION then Value(()) else Malformed(BadMarkup);
    }

    // Character data

    /** What is left to read, the largest number of steps that replacement texts can take. */
    ghost function Load(): nat
      requires Readable(reader.entities)
      reads reader`entities, reader`physical
    {
      StackWork(reader.store, reader.entities, reader.physical, 0, CONTENT)
    }

    /** A reference in content: a character, or the entity it names is entered. */
    method ContentReference() returns (out: Outcome<Referent>)
      requires reader.Valid() && !reader.closed && !reader.needEnd
      modifies reader`entities, reader`physical, reader`tokenOwned, reader`retained, reader.account
      ensures reader.Valid() && reader.Others() == old(reader.Others()) && reader.tokenOwned >= old(reader.tokenOwned)
      ensures old(reader.entities) != [] ==> reader.physical == old(reader.physical)
      ensures References(out, reader.store, old(reader.entities), old(reader.Remaining()), reader.entities, reader.physical, |reader.elements|)
      ensures reader.account.ample ==> !out.Stopped?
    {
      hide SameStack;
      hide RemainingAt;
      hide Agrees;
      hide SumRetained;
      hide Distinct;
      hide DepthsNested;
      hide Legible;
      hide Readable;
      hide Named;
      hide Active;
      hide ParseReference;
      hide LookUp;
      out := reader.ReadReference();
      SameStackStructure(reader.entities, old(reader.entities), |reader.elements|);
      if out.Value? && out.value.Entity? {
        ghost var stack := reader.entities;
        var pushed := reader.EnterEntity(out.value.name, Content);
        if pushed.Value? {
          assert reader.entities[..|stack|] == stack;
        } else {
          return if pushed.Stopped? then Stopped else Malformed(pushed.why);
        }
      }
    }

    /** The next piece of character data; `some` says whether there is any yet. */
    method NextPiece(some: bool, ghost brackets: nat) returns (out: Outcome<Piece>)
      requires reader.Valid() && !reader.closed && !reader.needEnd
      modifies reader`entities, reader`physical, reader`tokenOwned, reader`retained, reader.account
      ensures reader.Valid() && reader.Others() == old(reader.Others()) && reader.tokenOwned >= old(reader.tokenOwned)
      ensures old(reader.entities) != [] ==> reader.physical == old(reader.physical)
      ensures PieceOf(out, TextAt(old(Here()), reader.elements != [], old(reader.Remaining()), some, brackets), brackets,
                      reader.store, old(reader.entities), reader.entities, reader.physical, |reader.elements|)
      ensures out.Value? && !out.value.Inside? ==> SameStack(reader.entities, old(reader.entities))
      ensures out.Value? && out.value.Inside? ==> !some
      ensures out.Value? && !out.value.Boundary? ==> Load() < old(Load())
      ensures out.Value? && out.value.Boundary? ==>
                && Load() == old(Load()) && reader.Remaining() == old(reader.Remaining())
                && (reader.Remaining() == [] || reader.Remaining()[0] == Char(LESS) || (some && reader.Remaining()[0] == Char(AMPERSAND)))
      ensures reader.account.ample ==> !out.Stopped?
    {
      hide Units;
      hide EncodeAll;
      hide Expand;
      hide Work;
      hide SameStack;
      hide RemainingAt;
      hide Active;
      hide Agrees;
      hide SumRetained;
      hide Distinct;
      hide DepthsNested;
      hide Legible;
      hide Readable;
      hide Named;
      hide StackWork;
      hide TextAt;
      hide PlaceOf;
      hide References;
      hide InExternalMarkup;
      ghost var before, physicalBefore, input := reader.entities, reader.physical, reader.Remaining();
      TextUnfold(Here(), reader.elements != [], input, some, brackets);
      var u := Look();
      SamePlace(reader.store, reader.entities, before);
      ContinuePeek(reader.store, before, reader.entities, reader.physical, 0, CONTENT, []);
      if u.Stopped? {
        return Stopped;
      }
      if u.Malformed? {
        return if u.why.Truncated? then Value(Boundary) else Malformed(u.why);
      }
      if u.value == LESS || (u.value == AMPERSAND && some) {
        return Value(Boundary);
      }
      ghost var stack := reader.entities;
      var taken := Must();
      SameStackTransitive(reader.entities, stack, before);
      SamePlace(reader.store, reader.entities, before);
      if !taken.Value? {
        return Stopped;
      }
      if taken.value != AMPERSAND {
        ContinueCharacter(reader.store, before, physicalBefore, reader.entities, reader.physical, 0, CONTENT, [], taken.value);
        return Value(Plain(taken.value));
      }
      if reader.elements == [] {
        return Malformed(BadText);
      }
      out := Refer(some, before, physicalBefore, input, brackets);
    }

    /** A reference behind its ampersand. */
    method Refer(some: bool, ghost before: seq<EntityFrame>, ghost physicalBefore: seq<Unit>, ghost input: seq<Unit>, ghost brackets: nat)
      returns (out: Outcome<Piece>)
      requires reader.Valid() && !reader.closed && !reader.needEnd && reader.elements != [] && !some
      requires Readable(before) && SameStack(reader.entities, before) && (before != [] ==> reader.physical == physicalBefore)
      requires input == RemainingOf(before, physicalBefore) && input != [] && input[0] == Char(AMPERSAND) && reader.Remaining() == input[1..]
      modifies reader`entities, reader`physical, reader`tokenOwned, reader`retained, reader.account
      ensures reader.Valid() && reader.Others() == old(reader.Others()) && reader.tokenOwned >= old(reader.tokenOwned)
      ensures before != [] ==> reader.physical == physicalBefore
      ensures PieceOf(out, TextAt(PlaceOf(reader.store, before), true, input, some, brackets), brackets,
                      reader.store, before, reader.entities, reader.physical, |reader.elements|)
      ensures out.Value? ==> out.value.Inside? || out.value.Referenced?
      ensures out.Value? && out.value.Referenced? ==> SameStack(reader.entities, before)
      ensures out.Value? ==> Load() < StackWork(reader.store, before, physicalBefore, 0, CONTENT)
      ensures reader.account.ample ==> !out.Stopped?
    {
      hide Units;
      hide EncodeAll;
      hide Expand;
      hide Work;
      hide SameStack;
      hide RemainingAt;
      hide Active;
      hide Agrees;
      hide SumRetained;
      hide Distinct;
      hide DepthsNested;
      hide Legible;
      hide Readable;
      hide Named;
      hide StackWork;
      hide TextAt;
      hide PlaceOf;
      hide ParseReference;
      hide LookUp;
      hide InExternalMarkup;
      TextUnfold(PlaceOf(reader.store, before), true, input, some, brackets);
      ghost var stack := reader.entities;
      SamePlace(reader.store, stack, before);
      PlaceIs(reader.store, stack);
      var r := ContentReference();
      if !r.Value? {
        return if r.Stopped? then Stopped else Malformed(r.why);
      }
      if r.value.Character? {
        SameStackTransitive(reader.entities, stack, before);
        SamePlace(reader.store, reader.entities, before);
        ModePhysical(before);
        ContinueLiteral(reader.store, before, physicalBefore, reader.entities, reader.physical, 0, CONTENT, [], r.value.c);
        return Value(Referenced(r.value.c));
      }
      EnteringContent(reader.store, before, physicalBefore, stack, reader.entities, reader.physical, r.value.name, input, |reader.elements|);
      out := Value(Inside);
    }

    /** The run that began as `goal` has the characters of `text` so far, and `below` waits. */
    ghost predicate Texting(goal: Run, b: Builder, text: seq<Rune>, brackets: nat, below: seq<seq<Unit>>, from: nat)
      reads reader
    {
      && reader.Holds(b, text, 0) && brackets <= 2 && Readable(reader.entities) && from <= |reader.entities|
      && goal == TextAt(Here(), reader.elements != [], reader.Remaining(), text != [], brackets).Prepend(text).Above(below)
      && Levels(reader.entities, reader.physical, from) == below + [reader.Remaining()]
    }

    /** A run of buffered text at once. */
    method FastText(b: Builder, ghost text: seq<Rune>, ghost brackets: nat, ghost goal: Run, ghost below: seq<seq<Unit>>, ghost from: nat)
      returns (ok: bool, b': Builder, some: bool, ghost span: seq<Rune>)
      requires reader.Valid() && !reader.closed && Texting(goal, b, text, brackets, below, from)
      modifies reader`physical, reader`tokenOwned, reader.account
      ensures reader.Valid() && reader.Others() == old(reader.Others())
      ensures if some then reader.entities == [] && Load() < old(Load()) else reader.physical == old(reader.physical)
      ensures ok ==> Texting(goal, b', text + span, if some then 0 else brackets, below, from) && (some <==> span != [])
      ensures reader.account.ample ==> ok
    {
      hide SumRetained;
      hide EncodeAll;
      hide TextAt;
      hide RemainingAt;
      hide Agrees;
      hide Distinct;
      hide DepthsNested;
      hide Named;
      hide Levels;
      hide StackWork;
      hide PlaceOf;
      var run;
      ok, b', run := reader.AsciiSpan(b, if reader.elements == [] then SpaceSpan else TextSpan);
      some, span := run != [], run;
      EncodeAllConcat(text, run);
      assert text + [] == text && old(reader.physical)[0..] == old(reader.physical);
      if some {
        TextSpanAt(Here(), reader.elements != [], old(reader.physical), text != [], brackets, run);
        RunLonger(TextAt(Here(), reader.elements != [], reader.physical, true, 0), text, run, below);
        LevelsMoved(reader.entities, reader.physical, reader.entities, old(reader.physical), from, below);
        ContinueSpan(reader.store, old(reader.physical), run, CONTENT, []);
      }
    }

    /** One round of character data; `Value(true)` means that the data ends here. */
    method TextStep(b: Builder, brackets: nat, ghost text: seq<Rune>, ghost goal: Run, ghost below: seq<seq<Unit>>, ghost from: nat)
      returns (out: Outcome<bool>, b': Builder, brackets': nat, ghost text': seq<Rune>, ghost below': seq<seq<Unit>>)
      requires reader.Valid() && !reader.closed && !reader.needEnd && Texting(goal, b, text, brackets, below, from)
      modifies reader`entities, reader`physical, reader`tokenOwned, reader`retained, reader.account
      ensures reader.Valid() && reader.Others() == old(reader.Others())
      ensures out.Value? ==> Entered(old(reader.entities), reader.entities, |reader.elements|) && from <= |reader.entities|
      ensures match out
              case Stopped => true
              case Malformed(why) => goal == Torn(why)
              case Value(true) =>
                && b'.data == EncodeAll(text') && goal == Run(text', Levels(reader.entities, reader.physical, from))
                && Load() == old(Load()) && text' == text
                && (old(reader.Remaining()) == [] || old(reader.Remaining())[0] == Char(LESS) || text != [])
              case Value(false) => Texting(goal, b', text', brackets', below', from) && Load() < old(Load())
      ensures reader.account.ample ==> !out.Stopped?
    {
      hide RemainingAt;
      hide Entered;
      hide Active;
      hide Agrees;
      hide SumRetained;
      hide Distinct;
      hide DepthsNested;
      hide Legible;
      hide Named;
      hide TextAt;
      hide PlaceOf;
      hide EncodeAll;
      hide StackWork;
      hide Levels;
      hide SameStack;
      brackets', text', below' := brackets, text, below;
      SameStackReflexive(reader.entities);
      EnteredNone(reader.entities, reader.entities, |reader.elements|);
      var ok, some;
      ghost var span;
      ok, b', some, span := FastText(b, text, brackets, goal, below, from);
      if !ok {
        return Stopped, b', brackets, text, below;
      }
      if some {
        return Value(false), b', 0, text + span, below;
      }
      assert text + span == text;
      out, b', brackets', text', below' := TextPiece(b', brackets, text, goal, below, from);
    }

    /** The same with a single character. */
    method TextPiece(b: Builder, brackets: nat, ghost text: seq<Rune>, ghost goal: Run, ghost below: seq<seq<Unit>>, ghost from: nat)
      returns (out: Outcome<bool>, b': Builder, brackets': nat, ghost text': seq<Rune>, ghost below': seq<seq<Unit>>)
      requires reader.Valid() && !reader.closed && !reader.needEnd && Texting(goal, b, text, brackets, below, from)
      modifies reader`entities, reader`physical, reader`tokenOwned, reader`retained, reader.account
      ensures reader.Valid() && reader.Others() == old(reader.Others())
      ensures out.Value? ==> Entered(old(reader.entities), reader.entities, |reader.elements|) && from <= |reader.entities|
      ensures match out
              case Stopped => true
              case Malformed(why) => goal == Torn(why)
              case Value(true) =>
                && b'.data == EncodeAll(text') && goal == Run(text', Levels(reader.entities, reader.physical, from))
                && Load() == old(Load()) && text' == text
                && (old(reader.Remaining()) == [] || old(reader.Remaining())[0] == Char(LESS) || text != [])
              case Value(false) => Texting(goal, b', text', brackets', below', from) && Load() < old(Load())
      ensures reader.account.ample ==> !out.Stopped?
    {
      hide RemainingAt;
      hide Entered;
      hide Active;
      hide Agrees;
      hide SumRetained;
      hide Distinct;
      hide DepthsNested;
      hide Legible;
      hide Named;
      hide TextAt;
      hide PlaceOf;
      hide EncodeAll;
      hide StackWork;
      hide Levels;
      hide SameStack;
      brackets', text', below', b' := brackets, text, below, b;
      EncodeSome(text);
      ghost var before, physicalBefore := reader.entities, reader.physical;
      var piece := NextPiece(b.data != [], brackets);
      if !piece.Value? {
        return if piece.Stopped? then Stopped else Malformed(piece.why), b, brackets, text, below;
      }
      if piece.value.Inside? {
        RunDeeper(TextAt(Here(), reader.elements != [], reader.Remaining(), false, 0), RemainingOf(reader.entities[..|before|], reader.physical), below);
        LevelsPushed(before, physicalBefore, reader.entities, reader.physical, from, below);
        EnteredPushed(before, reader.entities, |reader.elements|);
        below' := below + [RemainingOf(reader.entities[..|before|], reader.physical)];
        return Value(false), b, 0, text, below';
      }
      EnteredNone(before, reader.entities, |reader.elements|);
      LevelsMoved(reader.entities, reader.physical, before, physicalBefore, from, below);
      if piece.value.Boundary? {
        RunEnds(text, below, reader.Remaining());
        return Value(true), b, brackets, text, below;
      }
      out, b', brackets', text' := PutPiece(piece.value, b, brackets, text, goal, below, from);
    }

    /** A character of the data, unless it may not stand here. */
    method PutPiece(piece: Piece, b: Builder, brackets: nat, ghost text: seq<Rune>, ghost goal: Run, ghost below: seq<seq<Unit>>, ghost from: nat)
      returns (out: Outcome<bool>, b': Builder, brackets': nat, ghost text': seq<Rune>)
      requires reader.Valid() && !reader.closed && reader.Holds(b, text, 0) && brackets <= 2 && from <= |reader.entities|
      requires (piece.Plain? || piece.Referenced?) && IsXmlChar(piece.c) && (piece.Referenced? ==> reader.elements != [])
      requires Levels(reader.entities, reader.physical, from) == below + [reader.Remaining()]
      requires var c, now, inside := piece.c, if piece.Plain? then Brackets(brackets, piece.c) else 0, reader.elements != [];
               goal == (if piece.Plain? && ((brackets == 2 && c == GREATER) || (!inside && !IsSpace(c))) then Torn(BadText)
                        else TextAt(Here(), inside, reader.Remaining(), true, now).Prepend([c])).Prepend(text).Above(below)
      modifies reader`tokenOwned, reader.account
      ensures reader.Valid() && reader.Others() == old(reader.Others())
      ensures match out
              case Stopped => !reader.account.ample
              case Malformed(why) => goal == Torn(why)
              case Value(done) => !done && Texting(goal, b', text', brackets', below, from)
    {
      hide RemainingAt;
      hide Agrees;
      hide SumRetained;
      hide Distinct;
      hide DepthsNested;
      hide Legible;
      hide Named;
      hide TextAt;
      hide PlaceOf;
      hide EncodeAll;
      hide Levels;
      var c := piece.c;
      b', text', brackets' := b, text, brackets;
      if piece.Plain? && brackets == 2 && c == GREATER {
        return Malformed(BadText), b, brackets, text;
      }
      brackets' := if piece.Plain? then Brackets(brackets, c) else 0;
      if reader.elements == [] && !IsSpace(c) {
        return Malformed(BadText), b, brackets, text;
      }
      var ok;
      ok, b' := Put(b, text, c);
      RunLonger(TextAt(Here(), reader.elements != [], reader.Remaining(), true, brackets'), text, [c], below);
      text' := text + [c];
      out := if ok then Value(false) else Stopped;
    }

    /** Character data up to the next markup or the end of the input being read.  References to
        entities go on inside their replacement text, and less is left to read afterwards. */
    method CharacterData() returns (out: Outcome<seq<byte>>)
      requires reader.Valid() && !reader.closed && !reader.needEnd
      requires var next := OneChar(reader.Remaining()); next.Parsed? && next.value != LESS
      modifies reader`entities, reader`physical, reader`tokenOwned, reader`retained, reader.account
      ensures reader.Valid() && reader.Others() == old(reader.Others())
      ensures out.Value? ==> Entered(old(reader.entities), reader.entities, |reader.elements|) && Load() < old(Load())
      ensures RunMeets(out, TextAt(old(Here()), reader.elements != [], old(reader.Remaining()), false, 0),
                       reader.entities, reader.physical, |old(reader.entities)|)
      ensures reader.account.ample ==> !out.Stopped?
    {
      hide RemainingAt;
      hide Entered;
      hide Active;
      hide Agrees;
      hide SumRetained;
      hide Distinct;
      hide DepthsNested;
      hide Legible;
      hide Named;
      hide TextAt;
      hide PlaceOf;
      hide EncodeAll;
      hide StackWork;
      hide Levels;
      hide SameStack;
      ghost var goal := TextAt(Here(), reader.elements != [], reader.Remaining(), false, 0);
      ghost var text: seq<Rune>, below: seq<seq<Unit>>, from, started := [], [], |reader.entities|, false;
      var b, brackets := Builder([], VALUE_SCRATCH, true), 0;
      EncodeNothing();
      RunNothing(goal);
      SameStackReflexive(reader.entities);
      EnteredNone(reader.entities, reader.entities, |reader.elements|);
      LevelsStart(reader.entities, reader.physical);
      while true
        invariant reader.Valid() && reader.Others() == old(reader.Others())
        invariant Texting(goal, b, text, brackets, below, from)
        invariant Entered(old(reader.entities), reader.entities, |reader.elements|)
        invariant if started then Load() < old(Load()) else text == [] && reader.entities == old(reader.entities) && reader.physical == old(reader.physical)
        decreases Load()
      {
        ghost var stack := reader.entities;
        var step;
        step, b, brackets, text, below := TextStep(b, brackets, text, goal, below, from);
        if !step.Value? {
          return if step.Stopped? then Stopped else Malformed(step.why);
        }
        EnteredMore(old(reader.entities), stack, reader.entities, |reader.elements|);
        if step.value {
          return Value(b.data);
        }
        started := true;
      }
    }

    // Document types

    /** The text of a parameter entity, read with its pads to its end. */
    method ParameterText(name: Name, text: seq<byte>) returns (out: Outcome<()>)
      requires reader.Valid() && !reader.closed && !reader.needEnd
      modifies reader`entities, reader`physical, reader`retained, reader.account
      ensures reader.Valid() && reader.Others() == old(reader.Others())
      ensures out.Value? ==> reader.entities == old(reader.entities)
      ensures reader.account.ample ==> !out.Stopped?
    {
      hide RemainingAt;
      hide Agrees;
      hide SumRetained;
      hide Distinct;
      hide DepthsNested;
      hide Legible;
      hide Named;
      out := reader.PushEntity(name, true, true, true, text, Dtd);
      if !out.Value? {
        return;
      }
      ghost var pushed := reader.entities;
      SameStackReflexive(pushed);
      var top := |reader.entities| - 1;
      while reader.entities[top].offset < reader.entities[top].Length()
        invariant reader.Valid() && reader.Others() == old(reader.Others()) && SameStack(reader.entities, pushed)
        decreases |reader.Remaining()|
      {
        ghost var stack := reader.entities;
        var u := Must();
        SameStackTransitive(reader.entities, stack, pushed);
        if !u.Value? {
          return if u.Stopped? then Stopped else Malformed(u.why);
        }
      }
      assert reader.entities[..top] == pushed[..top] == old(reader.entities);
      out := reader.FinishEntity(Dtd);
    }

    /** What the declaration store keeps until the end. */
    method StoreReserve(n: nat) returns (ok: bool)
      requires reader.Valid() && !reader.closed
      modifies this`storeOwned, reader.account
      ensures reader.Valid() && Others() == old(Others()) && storeOwned >= old(storeOwned)
      ensures reader.account.ample ==> ok
    {
      hide SumRetained;
      ok := reader.account.Charge(Buffered, n);
      if ok {
        storeOwned := storeOwned + n;
      }
    }

    /** A document type declaration.  How it is parsed is left open: it takes characters, reads
        parameter entities and default values and reserves bytes for the token and for the store,
        in any order and any number, and may find a fault at any point. */
    method DocumentType() returns (out: Outcome<()>)
      requires reader.Valid() && !reader.closed && !reader.needEnd && reader.Others() >= storeOwned
      modifies this`storeOwned, this`doctype
      modifies reader`entities, reader`physical, reader`tokenOwned, reader`retained, reader.account
      ensures reader.Valid() && Others() == old(Others())
      ensures out.Value? ==> SameStack(reader.entities, old(reader.entities)) && !old(doctype) && !seenRoot
      ensures reader.account.ample ==> !out.Stopped?
    {
      hide SameStack;
      if seenRoot || doctype {
        return Malformed(BadMarkup);
      }
      SameStackReflexive(reader.entities);
      var steps: nat, i := *, 0;
      while i < steps
        invariant reader.Valid() && Others() == old(Others()) && SameStack(reader.entities, old(reader.entities))
      {
        ghost var stack := reader.entities;
        out := DeclarationStep();
        if !out.Value? {
          return;
        }
        SameStackTransitive(reader.entities, stack, old(reader.entities));
        i := i + 1;
      }
      doctype := true;
      out := Value(());
    }

    method DeclarationStep() returns (out: Outcome<()>)
      requires reader.Valid() && !reader.closed && !reader.needEnd && reader.Others() >= storeOwned
      modifies this`storeOwned
      modifies reader`entities, reader`physical, reader`tokenOwned, reader`retained, reader.account
      ensures reader.Valid() && Others() == old(Others())
      ensures out.Value? ==> SameStack(reader.entities, old(reader.entities))
      ensures reader.account.ample ==> !out.Stopped?
    {
      hide SameStack;
      hide SumRetained;
      SameStackReflexive(reader.entities);
      var choice: int, n: nat, name: Name, text: seq<byte> := *, *, *, *;
      if choice == 0 {
        var u := Must();
        out := if u.Value? then Value(()) else if u.Stopped? then Stopped else Malformed(u.why);
      } else if choice == 1 {
        out := ParameterText(name, text);
      } else if choice == 2 {
        var value := ReadDefault(AttributeDeclaration(name, false, Default(text), false));
        out := if value.Value? then Value(()) else if value.Stopped? then Stopped else Malformed(value.why);
      } else if choice == 3 {
        var ok := reader.TokenReserve(n);
        out := if ok then Value(()) else Stopped;
      } else if choice == 4 {
        var ok := StoreReserve(n);
        out := if ok then Value(()) else Stopped;
      } else {
        out := Malformed(BadMarkup);
      }
    }

    // Whole tokens

    /** Bytes on the account that neither the reader nor the store owns. */
    ghost function Others(): int
      reads this`storeOwned, reader, reader.account
    {
      reader.Others() - storeOwned
    }

    ghost predicate Valid()
      reads this, reader, reader.account
    {
      && reader.Valid() && !reader.closed && Others() >= 0
      && (!reader.failed ==> Balanced(reader.entities, entered, reader.elements))
    }

    /** How far the document has come. */
    ghost function Standing(): Progress
      reads this`seenRoot, reader`scopes, reader`elements, reader`rootClosed
    {
      Progress(reader.scopes, OpenNames(reader.elements), seenRoot, reader.rootClosed)
    }

    /** What the characters ahead hold for this call. */
    ghost function Ahead(): Next
      requires Readable(reader.entities)
      reads reader
    {
      LeftReadable(reader.entities);
      var stack := Left(reader.entities);
      NextAt(PlaceOf(reader.store, stack), reader.elements != [], Free(), RemainingOf(stack, reader.physical))
    }

    /** Entities whose text has been read are left, and each of them with exactly the elements
        open that were open when it was entered. */
    method LeaveEntities() returns (out: Outcome<()>)
      requires Valid() && !reader.failed && !reader.needEnd
      modifies this`entered, reader`entities, reader`retained, reader.account
      ensures reader.Valid() && Others() == old(Others())
      ensures out.Value? <==> CanLeave(old(reader.entities), |reader.elements|)
      ensures out.Value? ==> Valid() && reader.entities == Left(old(reader.entities))
      ensures out.Value? ==> forall i :: |reader.entities| <= i < |old(reader.entities)| ==> old(entered)[i] == reader.elements
      ensures !out.Stopped?
    {
      hide Agrees;
      hide SumRetained;
      hide Distinct;
      hide DepthsNested;
      hide Legible;
      hide Named;
      hide Readable;
      out := reader.FinishRead();
      if out.Value? {
        BalancedLeave(old(reader.entities), entered, reader.elements, reader.entities);
        entered := entered[..|reader.entities|];
      }
    }

    /** Reading goes on in the same input. */
    method LookHere() returns (out: Outcome<Rune>)
      requires Valid() && !reader.failed
      modifies reader`entities
      ensures Valid() && Others() == old(Others()) && reader.Remaining() == old(reader.Remaining()) && Load() == old(Load())
      ensures Here() == old(Here()) && Floor(reader.entities) == Floor(old(reader.entities)) && |reader.entities| == |old(reader.entities)|
      ensures match out
              case Stopped => true
              case Malformed(why) => OneChar(reader.Remaining()) == Fails(why)
              case Value(c) => var next := OneChar(reader.Remaining()); next.Parsed? && next.value == c
      ensures reader.account.ample ==> !out.Stopped?
    {
      hide Agrees;
      hide SumRetained;
      hide Distinct;
      hide DepthsNested;
      hide Legible;
      hide Named;
      hide Readable;
      hide SameStack;
      hide RemainingAt;
      hide StackWork;
      hide PlaceOf;
      hide Balanced;
      ghost var stack := reader.entities;
      out := Look();
      BalancedMoved(stack, entered, reader.elements, reader.entities);
      SamePlace(reader.store, reader.entities, stack);
      SameStackStructure(reader.entities, stack, 0);
      ContinuePeek(reader.store, stack, reader.entities, reader.physical, 0, CONTENT, []);
    }

    method TakeHere() returns (out: Outcome<Rune>)
      requires Valid() && !reader.failed
      modifies reader`entities, reader`physical
      ensures Valid() && Others() == old(Others())
      ensures Here() == old(Here()) && Floor(reader.entities) == Floor(old(reader.entities)) && |reader.entities| == |old(reader.entities)|
      ensures Meets(out, OneChar(old(reader.Remaining())), reader.Remaining())
      ensures out.Value? ==> IsXmlChar(out.value) && CanReturn(reader.entities, out.value)
      ensures reader.account.ample ==> !out.Stopped?
    {
      hide Agrees;
      hide SumRetained;
      hide Distinct;
      hide DepthsNested;
      hide Legible;
      hide Named;
      hide Readable;
      hide SameStack;
      hide RemainingAt;
      hide PlaceOf;
      hide Balanced;
      ghost var stack := reader.entities;
      out := Must();
      BalancedMoved(stack, entered, reader.elements, reader.entities);
      SamePlace(reader.store, reader.entities, stack);
      SameStackStructure(reader.entities, stack, 0);
    }

    /** The character behind an opening bracket; that of a start tag is put back. */
    method Lead() returns (out: Outcome<Rune>)
      requires Valid() && !reader.failed
      modifies reader`entities, reader`physical
      ensures Valid() && Others() == old(Others())
      ensures Here() == old(Here()) && Floor(reader.entities) == Floor(old(reader.entities)) && |reader.entities| == |old(reader.entities)|
      ensures var next := OneChar(old(reader.Remaining()));
              match out
              case Stopped => true
              case Malformed(why) => next == Fails(why)
              case Value(c) =>
                && next.Parsed? && next.value == c
                && reader.Remaining() == if c == SOLIDUS || c == QUESTION || c == EXCLAMATION then next.rest else old(reader.Remaining())
      ensures reader.account.ample ==> !out.Stopped?
    {
      hide Agrees;
      hide SumRetained;
      hide Distinct;
      hide DepthsNested;
      hide Legible;
      hide Named;
      hide Readable;
      hide SameStack;
      hide RemainingAt;
      hide PlaceOf;
      hide Balanced;
      hide CanReturn;
      out := TakeHere();
      if out.Value? && out.value != SOLIDUS && out.value != QUESTION && out.value != EXCLAMATION {
        ghost var stack := reader.entities;
        PutBack(out.value);
        BalancedMoved(stack, entered, reader.elements, reader.entities);
        SamePlace(reader.store, reader.entities, stack);
        SameStackStructure(reader.entities, stack, 0);
        assert reader.Remaining() == old(reader.Remaining());
      }
    }

    /** A start tag behind its opening bracket is accepted exactly if the namespace constraints
        allow what the characters say. */
    method StartTag() returns (out: Outcome<Token>)
      requires Valid() && !reader.failed && !reader.needEnd
      modifies this`seenRoot, reader, reader.account
      ensures reader.Valid() && !reader.closed && Others() == old(Others())
      ensures out.Value? ==> Valid() && !reader.failed && Standing() == After(old(Standing()), out.value)
      ensures out.Value? ==> out.value.StartToken? && Allowed(old(Standing()), out.value) && |reader.entities| == |old(reader.entities)|
      ensures Answers(out, OpensAt(old(Here()), old(Free()), old(reader.Remaining())), old(Standing()),
                      Floor(old(reader.entities)), reader.Remaining(), reader.needEnd)
      ensures reader.account.ample ==> !out.Stopped?
    {
      hide Agrees;
      hide SumRetained;
      hide Distinct;
      hide DepthsNested;
      hide Legible;
      hide Named;
      hide Readable;
      hide SameStack;
      hide Balanced;
      hide TagAllowed;
      hide Declared;
      hide TagAt;
      hide RemainingAt;
      hide PlaceOf;
      ghost var stack, elements := reader.entities, reader.elements;
      var tag := ReadTag();
      if !tag.Value? {
        return if tag.Stopped? then Stopped else Malformed(tag.why);
      }
      SamePlace(reader.store, reader.entities, stack);
      SameStackStructure(reader.entities, stack, 0);
      BalancedMoved(stack, entered, elements, reader.entities);
      var opening := reader.StartElement(tag.value.name, tag.value.attributes, tag.value.empty);
      if !opening.Value? {
        return if opening.Stopped? then Stopped else Malformed(opening.why);
      }
      BalancedOpen(reader.entities, entered, elements, reader.elements);
      NamesOpen(elements, reader.elements);
      seenRoot := true;
      out := Value(StartToken(tag.value.name, tag.value.attributes));
    }

    /** An end tag behind its opening bracket and slash is accepted exactly if it closes the
        innermost element and that was opened inside the current entity. */
    method EndTag() returns (out: Outcome<Token>)
      requires Valid() && !reader.failed && !reader.needEnd
      modifies reader, reader.account
      ensures reader.Valid() && !reader.closed && Others() == old(Others())
      ensures out.Value? ==> Valid() && !reader.failed && Standing() == After(old(Standing()), out.value)
      ensures out.Value? ==> out.value.EndToken? && Allowed(old(Standing()), out.value) && |reader.entities| == |old(reader.entities)|
      ensures Answers(out, EndsAt(old(reader.Remaining()), old(reader.entities) == []), old(Standing()),
                      Floor(old(reader.entities)), reader.Remaining(), reader.needEnd)
      ensures reader.account.ample ==> !out.Stopped?
    {
      hide Agrees;
      hide SumRetained;
      hide Distinct;
      hide DepthsNested;
      hide Legible;
      hide Named;
      hide Readable;
      hide SameStack;
      hide Balanced;
      hide EndTagAt;
      hide RemainingAt;
      hide OpenNames;
      hide Floor;
      ghost var stack := reader.entities;
      var name := ReadEndTag();
      if !name.Value? {
        return if name.Stopped? then Stopped else Malformed(name.why);
      }
      SameFloor(reader.entities, stack);
      BalancedMoved(stack, entered, reader.elements, reader.entities);
      var closed := CloseNamed(name.value);
      out := if closed.Value? then Value(EndToken(name.value)) else if closed.Stopped? then Stopped else Malformed(closed.why);
    }

    method CloseNamed(name: QName) returns (out: Outcome<()>)
      requires Valid() && !reader.failed && !reader.needEnd
      modifies reader`elements, reader`namespaces, reader`retained, reader`rootClosed, reader`needEnd, reader`scopes, reader.account
      ensures reader.Valid() && Others() == old(Others()) && !reader.needEnd
      ensures out.Value? <==> Accepts(old(Standing()), Floor(reader.entities), Ends(name))
      ensures out.Value? ==> Valid() && Standing() == After(old(Standing()), EndToken(name))
      ensures !out.Stopped?
    {
      hide Agrees;
      hide SumRetained;
      hide Distinct;
      hide DepthsNested;
      hide Legible;
      hide Named;
      hide Readable;
      hide Balanced;
      ghost var elements := reader.elements;
      AgreesShows(reader.namespaces, Log(elements), reader.scopes);
      out := reader.EndElement(name);
      if elements != [] {
        NamesClose(elements);
      }
      if out.Value? {
        BalancedClose(reader.entities, entered, elements);
      }
    }

    /** The end of an empty element comes before anything else is read. */
    method EmptyEnd() returns (out: Outcome<Token>)
      requires Valid() && !reader.failed && reader.needEnd
      modifies reader`elements, reader`namespaces, reader`retained, reader`rootClosed, reader`needEnd, reader`scopes, reader.account
      ensures Valid() && !reader.needEnd && Others() == old(Others())
      ensures var token := EndToken(old(reader.elements)[|old(reader.elements)| - 1].name);
              Standing() == After(old(Standing()), token) && Allowed(old(Standing()), token)
      ensures out.Stopped? || out == Value(EndToken(old(reader.elements)[|old(reader.elements)| - 1].name))
      ensures reader.account.ample ==> !out.Stopped?
    {
      hide Agrees;
      hide SumRetained;
      hide Distinct;
      hide DepthsNested;
      hide Legible;
      hide Named;
      hide Readable;
      hide Balanced;
      hide OpenNames;
      AgreesShows(reader.namespaces, Log(reader.elements), reader.scopes);
      BalancedClose(reader.entities, entered, reader.elements);
      NamesClose(reader.elements);
      var token := EndToken(reader.elements[|reader.elements| - 1].name);
      reader.PopElement();
      var admitted := reader.account.Admit();
      out := if admitted then Value(token) else Stopped;
    }

    /** A comment, a CDATA section or a document type behind its exclamation mark. */
    method DeclarationMarkup() returns (out: Outcome<Token>)
      requires Valid() && !reader.failed && !reader.needEnd
      modifies this`storeOwned, this`doctype
      modifies reader`entities, reader`physical, reader`tokenOwned, reader`retained, reader.account
      ensures reader.Valid() && Others() == old(Others())
      ensures out.Value? ==> SameStack(reader.entities, old(reader.entities))
      ensures Reads(out, DeclarationAt(reader.elements != [], old(reader.Remaining())), reader.Remaining())
      ensures reader.account.ample ==> !out.Stopped?
    {
      hide SameStack;
      hide RemainingAt;
      hide CommentAt;
      hide SectionAt;
      hide Expect;
      hide Balanced;
      var u := Must();
      if !u.Value? {
        return if u.Stopped? then Stopped else Malformed(u.why);
      }
      if u.value != HYPHEN && u.value != OPEN_BRACKET && u.value != 0x44 {
        return Malformed(BadMarkup);
      }
      ghost var first := reader.entities;
      var rest := Literal(if u.value == HYPHEN then [HYPHEN] else if u.value == OPEN_BRACKET then CDATA else OCTYPE);
      SameStackTransitive(reader.entities, first, old(reader.entities));
      if !rest.Value? {
        return if rest.Stopped? then Stopped else Malformed(rest.why);
      }
      ghost var second := reader.entities;
      out := DeclarationBody(u.value);
      if out.Value? {
        SameStackTransitive(reader.entities, second, old(reader.entities));
      }
    }

    method DeclarationBody(c: Rune) returns (out: Outcome<Token>)
      requires reader.Valid() && !reader.closed && !reader.needEnd && reader.Others() >= storeOwned
      modifies this`storeOwned, this`doctype
      modifies reader`entities, reader`physical, reader`tokenOwned, reader`retained, reader.account
      ensures reader.Valid() && Others() == old(Others())
      ensures out.Value? ==> SameStack(reader.entities, old(reader.entities))
      ensures c == HYPHEN ==> Reads(out, Remarking(true, Encoded(CommentAt(old(reader.Remaining())))), reader.Remaining())
      ensures c == OPEN_BRACKET ==>
                var section := Encoded(SectionAt(old(reader.Remaining())));
                Reads(out, if section.Parsed? && reader.elements == [] then Fails(BadText) else Remarking(false, section), reader.Remaining())
      ensures c != HYPHEN && c != OPEN_BRACKET && out.Value? ==> out.value.DeclarationToken?
      ensures reader.account.ample ==> !out.Stopped?
    {
      hide SameStack;
      hide RemainingAt;
      hide CommentAt;
      hide SectionAt;
      hide EncodeAll;
      if c == HYPHEN {
        var text := Comment();
        out := if text.Value? then Value(CommentToken(text.value)) else if text.Stopped? then Stopped else Malformed(text.why);
      } else if c == OPEN_BRACKET {
        var text := CData();
        out := if text.Value? then Value(TextToken(text.value)) else if text.Stopped? then Stopped else Malformed(text.why);
      } else {
        var done := DocumentType();
        out := if done.Value? then Value(DeclarationToken) else if done.Stopped? then Stopped else Malformed(done.why);
      }
    }

    /** Everything that begins with an opening bracket, behind it. */
    method AfterBracket(first: bool) returns (out: Outcome<Token>)
      requires Valid() && !reader.failed && !reader.needEnd
      modifies this`storeOwned, this`doctype, this`seenRoot, reader, reader.account
      ensures reader.Valid() && !reader.closed && Others() == old(Others())
      ensures out.Value? ==> Valid() && !reader.failed && Standing() == After(old(Standing()), out.value) && Allowed(old(Standing()), out.value)
      ensures out.Value? ==> out.value != NoToken && |reader.entities| == |old(reader.entities)|
      ensures Answers(out, MarkupAt(old(Here()), old(reader.elements) != [], old(Free()), old(reader.Remaining())), old(Standing()),
                      Floor(old(reader.entities)), reader.Remaining(), reader.needEnd)
      ensures reader.account.ample ==> !out.Stopped?
    {
      hide SameStack;
      hide Balanced;
      hide Agrees;
      hide SumRetained;
      hide Distinct;
      hide DepthsNested;
      hide Legible;
      hide Named;
      hide Readable;
      hide OpensAt;
      hide EndsAt;
      hide InstructionAt;
      hide DeclarationAt;
      hide PlaceOf;
      hide RemainingAt;
      hide TagAllowed;
      hide Declared;
      hide OpenNames;
      hide Floor;
      hide Accepts;
      PlacePhysical(reader.store, reader.entities);
      LengthNone(reader.entities);
      var c := Lead();
      LengthNone(reader.entities);
      if !c.Value? {
        return if c.Stopped? then Stopped else Malformed(c.why);
      }
      if c.value == SOLIDUS {
        out := EndTag();
      } else if c.value == QUESTION || c.value == EXCLAMATION {
        ghost var behind := reader.Remaining();
        RemarksAreRemarkable(behind, reader.entities == [], reader.elements != []);
        ghost var markup := if c.value == QUESTION then InstructionAt(behind, reader.entities == []) else DeclarationAt(reader.elements != [], behind);
        out := Remark(c.value, first);
        ReadsAnswers(out, markup, old(Standing()), Floor(old(reader.entities)), reader.Remaining());
      } else {
        out := StartTag();
      }
    }

    /** Markup that opens and closes nothing. */
    method Remark(c: Rune, first: bool) returns (out: Outcome<Token>)
      requires Valid() && !reader.failed && !reader.needEnd
      modifies this`storeOwned, this`doctype
      modifies reader`entities, reader`physical, reader`tokenOwned, reader`retained, reader.account
      ensures reader.Valid() && Others() == old(Others())
      ensures out.Value? ==> Valid() && |reader.entities| == |old(reader.entities)|
      ensures Reads(out, if c == QUESTION then InstructionAt(old(reader.Remaining()), old(reader.entities) == [])
                         else DeclarationAt(reader.elements != [], old(reader.Remaining())), reader.Remaining())
      ensures out.Value? ==> Remarkable(out.value)
      ensures reader.account.ample ==> !out.Stopped?
    {
      hide SameStack;
      hide Balanced;
      hide InstructionAt;
      hide DeclarationAt;
      hide RemainingAt;
      ghost var stack := reader.entities;
      RemarksAreRemarkable(reader.Remaining(), stack == [], reader.elements != []);
      if c == QUESTION {
        out := Instruction(first);
      } else {
        out := DeclarationMarkup();
      }
      if out.Value? {
        BalancedMoved(stack, entered, reader.elements, reader.entities);
        SameStackStructure(reader.entities, stack, 0);
      }
    }

    method TextRun() returns (out: Outcome<Token>)
      requires Valid() && !reader.failed && !reader.needEnd
      requires var next := OneChar(reader.Remaining()); next.Parsed? && next.value != LESS
      modifies this`entered, reader`entities, reader`physical, reader`tokenOwned, reader`retained, reader.account
      ensures reader.Valid() && Others() == old(Others())
      ensures out.Value? ==> Valid() && (out.value == NoToken ==> Load() < old(Load()))
      ensures out.Value? ==> Standing() == After(Standing(), out.value) && Allowed(Standing(), out.value)
      ensures Spells(out, TextAt(old(Here()), reader.elements != [], old(reader.Remaining()), false, 0),
                    reader.entities, reader.physical, |old(reader.entities)|)
      ensures reader.account.ample ==> !out.Stopped?
    {
      hide Balanced;
      hide Entered;
      hide TextAt;
      hide EncodeAll;
      hide PlaceOf;
      hide RemainingAt;
      hide StackWork;
      hide Levels;
      hide Agrees;
      hide SumRetained;
      hide Distinct;
      hide DepthsNested;
      hide Legible;
      hide Named;
      ghost var stack := reader.entities;
      ghost var run := TextAt(Here(), reader.elements != [], reader.Remaining(), false, 0);
      var text := CharacterData();
      if !text.Value? {
        return if text.Stopped? then Stopped else Malformed(text.why);
      }
      EncodeSome(run.data);
      BalancedEnter(stack, entered, reader.elements, reader.entities);
      entered := EnteredNow(entered, |reader.entities|, reader.elements);
      out := Value(if text.value == [] then NoToken else TextToken(text.value));
    }

    /** The end of the document: every element is closed and there was one. */
    method AtDocumentEnd() returns (out: Outcome<Token>)
      requires Valid() && !reader.failed
      modifies this`complete
      ensures Valid() && (out.Value? <==> reader.elements == [] && seenRoot)
      ensures out.Value? ==> complete && out.value == EndOfDocument && Standing() == After(Standing(), out.value) && Allowed(Standing(), out.value)
      ensures !out.Stopped?
    {
      if reader.elements != [] {
        return Malformed(Truncated);
      }
      if !seenRoot {
        return Malformed(NoRoot);
      }
      complete := true;
      out := Value(EndOfDocument);
    }

    /** One round: entities that have been read are left, then one token is read. */
    method Round() returns (out: Outcome<Token>)
      requires Valid() && !reader.failed && !reader.needEnd
      modifies this, reader, reader.account
      ensures reader.Valid() && !reader.closed && Others() == old(Others())
      ensures out.Value? ==> Valid() && !reader.failed && Standing() == After(old(Standing()), out.value) && Allowed(old(Standing()), out.value)
      ensures out.Value? && out.value == NoToken ==>
                Load() < old(Load()) && !reader.needEnd && EmptyText(old(Ahead())) && Standing() == old(Standing())
      ensures if CanLeave(old(reader.entities), |old(reader.elements)|)
              then Fulfils(out, old(Ahead()), old(Standing()), Left(old(reader.entities)), reader.entities, reader.physical, reader.needEnd)
              else out.Malformed?
      ensures reader.account.ample ==> !out.Stopped?
    {
      hide SameStack;
      hide Balanced;
      hide Agrees;
      hide SumRetained;
      hide Distinct;
      hide DepthsNested;
      hide Legible;
      hide Named;
      hide Readable;
      hide RemainingAt;
      hide StackWork;
      hide TextAt;
      hide MarkupAt;
      hide PlaceOf;
      hide CanLeave;
      hide Left;
      hide TagAllowed;
      hide Declared;
      hide Levels;
      LeftWork(reader.store, reader.entities, reader.physical, CONTENT);
      var left := LeaveEntities();
      if !left.Value? {
        return if left.Stopped? then Stopped else Malformed(left.why);
      }
      out := ReadHere();
    }

    /** One token of the input being read. */
    method ReadHere() returns (out: Outcome<Token>)
      requires Valid() && !reader.failed && !reader.needEnd && (reader.entities != [] ==> reader.Remaining() != [])
      modifies this, reader, reader.account
      ensures reader.Valid() && !reader.closed && Others() == old(Others())
      ensures out.Value? ==> Valid() && !reader.failed && Standing() == After(old(Standing()), out.value) && Allowed(old(Standing()), out.value)
      ensures out.Value? && out.value == NoToken ==> Load() < old(Load()) && !reader.needEnd
      ensures out.Value? && out.value == NoToken ==>
                EmptyText(NextAt(old(Here()), old(reader.elements) != [], old(Free()), old(reader.Remaining())))
      ensures Fulfils(out, NextAt(old(Here()), old(reader.elements) != [], old(Free()), old(reader.Remaining())), old(Standing()),
                      old(reader.entities), reader.entities, reader.physical, reader.needEnd)
      ensures reader.account.ample ==> !out.Stopped?
    {
      hide Answers;
      hide Spells;
      hide EncodeAll;
      hide IsXmlChar;
      hide After;
      hide Allowed;
      hide SameStack;
      hide Balanced;
      hide Agrees;
      hide SumRetained;
      hide Distinct;
      hide DepthsNested;
      hide Legible;
      hide Named;
      hide Readable;
      hide RemainingAt;
      hide StackWork;
      hide TextAt;
      hide MarkupAt;
      hide PlaceOf;
      hide TagAllowed;
      hide Declared;
      hide Levels;
      hide Floor;
      hide OpenNames;
      hide Accepts;
      hide Fulfils;
      hide NextAt;
      hide Standing;
      ghost var p, stack := Standing(), reader.entities;
      ghost var next := NextAt(Here(), reader.elements != [], Free(), reader.Remaining());
      NextIs(Here(), reader.elements != [], Free(), reader.Remaining());
      StandingNames();
      var u := LookHere();
      if u.Malformed? && u.why.Truncated? && reader.entities == [] {
        out := AtDocumentEnd();
        FulfilsEnding(out, p, stack, reader.entities, reader.physical, reader.needEnd);
        return;
      }
      var admitted := reader.account.Admit();
      if !u.Value? || !admitted {
        out := if u.Malformed? then Malformed(u.why) else Stopped;
        FulfilsFailure(out, next, p, stack, reader.entities, reader.physical, reader.needEnd);
        return;
      }
      LengthFulfils(next, p, stack, reader.entities);
      out := ReadToken(u.value);
    }

    /** Text or markup, whichever the next character begins. */
    method ReadToken(c: Rune) returns (out: Outcome<Token>)
      requires Valid() && !reader.failed && !reader.needEnd
      requires var next := OneChar(reader.Remaining()); next.Parsed? && next.value == c
      modifies this`entered, this`seenToken, this`storeOwned, this`doctype, this`seenRoot, reader, reader.account
      ensures reader.Valid() && !reader.closed && Others() == old(Others())
      ensures out.Value? ==> Valid() && !reader.failed && Standing() == After(old(Standing()), out.value) && Allowed(old(Standing()), out.value)
      ensures out.Value? && out.value == NoToken ==> Load() < old(Load()) && !reader.needEnd
      ensures out.Value? && out.value == NoToken ==>
                EmptyText(NextAt(old(Here()), old(reader.elements) != [], old(Free()), old(reader.Remaining())))
      ensures Fulfils(out, NextAt(old(Here()), old(reader.elements) != [], old(Free()), old(reader.Remaining())), old(Standing()),
                      old(reader.entities), reader.entities, reader.physical, reader.needEnd)
      ensures reader.account.ample ==> !out.Stopped?
    {
      hide Answers;
      hide Spells;
      hide EncodeAll;
      hide IsXmlChar;
      hide After;
      hide Allowed;
      hide SameStack;
      hide Balanced;
      hide Agrees;
      hide SumRetained;
      hide Distinct;
      hide DepthsNested;
      hide Legible;
      hide Named;
      hide Readable;
      hide RemainingAt;
      hide StackWork;
      hide TextAt;
      hide MarkupAt;
      hide PlaceOf;
      hide Levels;
      hide Floor;
      hide Fulfils;
      hide NextAt;
      ghost var p, stack := Standing(), reader.entities;
      ghost var next := NextAt(Here(), reader.elements != [], Free(), reader.Remaining());
      NextIs(Here(), reader.elements != [], Free(), reader.Remaining());
      var first := !seenToken;
      seenToken := true;
      if c != LESS {
        out := TextRun();
        FulfilsText(out, next.run, p, stack, reader.entities, reader.physical);
      } else {
        out := Marked(first);
        FulfilsMarkup(out, next.markup, p, stack, reader.entities, reader.physical, reader.needEnd);
      }
    }

    lemma StandingNames()
      ensures Standing().names == [] <==> reader.elements == []
      ensures Standing().seenRoot == seenRoot
    {
    }

    /** Markup from its opening bracket on. */
    method Marked(first: bool) returns (out: Outcome<Token>)
      requires Valid() && !reader.failed && !reader.needEnd
      requires var next := OneChar(reader.Remaining()); next.Parsed? && next.value == LESS
      modifies this`storeOwned, this`doctype, this`seenRoot, reader, reader.account
      ensures reader.Valid() && !reader.closed && Others() == old(Others())
      ensures out.Value? ==> Valid() && !reader.failed && Standing() == After(old(Standing()), out.value) && Allowed(old(Standing()), out.value)
      ensures out.Value? ==> out.value != NoToken && |reader.entities| == |old(reader.entities)|
      ensures Answers(out, MarkupAt(old(Here()), old(reader.elements) != [], old(Free()), old(reader.Remaining())[1..]), old(Standing()),
                      Floor(old(reader.entities)), reader.Remaining(), reader.needEnd)
      ensures reader.account.ample ==> !out.Stopped?
    {
      hide SameStack;
      hide Balanced;
      hide Agrees;
      hide SumRetained;
      hide Distinct;
      hide DepthsNested;
      hide Legible;
      hide Named;
      hide Readable;
      hide RemainingAt;
      hide MarkupAt;
      hide PlaceOf;
      hide Floor;
      hide OpenNames;
      hide Accepts;
      hide After;
      hide Allowed;
      var bracket := TakeHere();
      if !bracket.Value? {
        return Stopped;
      }
      out := AfterBracket(first);
    }

    /** One call.  What it delivers is what the characters ahead say; empty text is passed over, and
        since every round of it leaves less to read, some token comes.  Every failure is final.
        Whatever is read, the invariants hold: named entities distinct and at most 64, element depth
        nested in entity depth, each live entity entered with elements that are still open, the
        namespace table in agreement with the open scopes, and every charge accounted for. */
    method Token() returns (out: Outcome<Token>)
      requires Valid() && !reader.failed
      modifies this, reader, reader.account
      ensures Valid() && Others() == old(Others())
      ensures !out.Value? <==> reader.failed
      ensures out.Value? ==> out.value != NoToken && Standing() == After(old(Standing()), out.value) && Allowed(old(Standing()), out.value)
      ensures old(reader.needEnd) ==>
                && !out.Malformed? && !reader.needEnd && reader.entities == old(reader.entities) && reader.physical == old(reader.physical)
                && (out.Value? ==> out.value == EndToken(old(reader.elements)[|old(reader.elements)| - 1].name))
      ensures !old(reader.needEnd) && !EmptyText(old(Ahead())) ==>
                if CanLeave(old(reader.entities), |old(reader.elements)|)
                then Fulfils(out, old(Ahead()), old(Standing()), Left(old(reader.entities)), reader.entities, reader.physical, reader.needEnd)
                else out.Malformed?
      ensures reader.account.ample ==> !out.Stopped?
    {
      hide EncodeAll;
      hide IsXmlChar;
      hide After;
      hide Allowed;
      hide Balanced;
      hide Agrees;
      hide SumRetained;
      hide Distinct;
      hide DepthsNested;
      hide Legible;
      hide Named;
      hide Readable;
      hide StackWork;
      hide NextAt;
      hide PlaceOf;
      hide CanLeave;
      hide Left;
      hide TagAllowed;
      hide Declared;
      hide Levels;
      hide RemainingAt;
      reader.ReleaseToken();
      if reader.needEnd {
        out := EmptyEnd();
        reader.failed := !out.Value?;
        return;
      }
      out := NextToken();
      reader.failed := !out.Value?;
    }

    /** Rounds until there is a token. */
    method NextToken() returns (out: Outcome<Token>)
      requires Valid() && !reader.failed && !reader.needEnd
      modifies this, reader, reader.account
      ensures reader.Valid() && !reader.closed && Others() == old(Others())
      ensures out.Value? ==> Valid() && !reader.failed && out.value != NoToken
      ensures out.Value? ==> Standing() == After(old(Standing()), out.value) && Allowed(old(Standing()), out.value)
      ensures !EmptyText(old(Ahead())) ==>
                if CanLeave(old(reader.entities), |old(reader.elements)|)
                then Fulfils(out, old(Ahead()), old(Standing()), Left(old(reader.entities)), reader.entities, reader.physical, reader.needEnd)
                else out.Malformed?
      ensures reader.account.ample ==> !out.Stopped?
    {
      hide Balanced;
      hide Agrees;
      hide SumRetained;
      hide Distinct;
      hide DepthsNested;
      hide Legible;
      hide Named;
      hide Readable;
      hide StackWork;
      hide NextAt;
      hide PlaceOf;
      hide CanLeave;
      hide Left;
      hide RemainingAt;
      hide After;
      hide Allowed;
      hide Fulfils;
      hide OpenNames;
      ghost var unmoved, ahead := true, Ahead();
      while true
        invariant Valid() && !reader.failed && !reader.needEnd && Others() == old(Others()) && Standing() == old(Standing())
        invariant if unmoved then reader.entities == old(reader.entities) && reader.physical == old(reader.physical) else EmptyText(ahead)
        decreases Load()
      {
        out := Round();
        if !out.Value? || out.value != NoToken {
          return;
        }
        unmoved := false;
        reader.ReleaseToken();
      }
    }

    /** Closing returns what the reader and the store own. */
    method Close()
      requires Valid()
      modifies this, reader, reader.account
      ensures reader.account.usage.buffered == old(Others()) && reader.closed
    {
      hide SumRetained;
      var _ := reader.account.Release(storeOwned);
      storeOwned := 0;
      reader.Close();
    }
  }

  /** What a reference in content does to the stack. */
  ghost predicate References(out: Outcome<Referent>, store: Store, before: seq<EntityFrame>, input: seq<Unit>,
                             now: seq<EntityFrame>, physical: seq<Unit>, depth: nat)
    requires Readable(now)
  {
    var r := ParseReference(input, before == []);
    match out
    case Stopped => true
    case Malformed(why) =>
      r == Broken(why) || (r.General? && LookUp(store, r.name, InExternalMarkup(before), Active(before), Named(before)) == Refused(why))
    case Value(Character(c)) => SameStack(now, before) && r == Literal(c, RemainingOf(now, physical)) && IsXmlChar(c)
    case Value(Entity(name)) => EntersContent(store, before, input, now, physical, name, depth)
  }

  /** The entity of a reference has been entered; what is behind the reference waits below it. */
  ghost predicate EntersContent(store: Store, before: seq<EntityFrame>, input: seq<Unit>,
                                now: seq<EntityFrame>, physical: seq<Unit>, name: Name, depth: nat)
    requires Readable(now)
  {
    && |now| == |before| + 1 && SameStack(now[..|before|], before)
    && var frame := now[|before|];
    && ParseReference(input, before == []) == General(name, RemainingOf(now[..|before|], physical))
    && LookUp(store, name, InExternalMarkup(before), Active(before), Named(before)) == Found(frame.text, frame.externalMarkup)
    && frame == EntityFrame(name, false, false, frame.externalMarkup, frame.text, Content, depth, 0, Nothing)
  }

  /** What a piece of character data says of the run it begins. */
  ghost predicate PieceOf(out: Outcome<Piece>, run: Run, brackets: nat, store: Store, before: seq<EntityFrame>,
                          now: seq<EntityFrame>, physical: seq<Unit>, depth: nat)
    requires Readable(now)
  {
    var place, input, inside := PlaceOf(store, now), RemainingOf(now, physical), depth > 0;
    match out
    case Stopped => true
    case Malformed(why) => run == Torn(why)
    case Value(Boundary) => run == Run([], [input])
    case Value(Plain(c)) =>
      && IsXmlChar(c)
      && run == if (brackets == 2 && c == GREATER) || (!inside && !IsSpace(c)) then Torn(BadText)
                else TextAt(place, inside, input, true, Brackets(brackets, c)).Prepend([c])
    case Value(Referenced(c)) => IsXmlChar(c) && inside && run == TextAt(place, inside, input, true, 0).Prepend([c])
    case Value(Inside) =>
      && |now| == |before| + 1 && SameStack(now[..|before|], before) && now[|before|].entryDepth == depth
      && run == TextAt(place, inside, input, false, 0).Above([RemainingOf(now[..|before|], physical)])
  }

  lemma PlaceIs(store: Store, entities: seq<EntityFrame>)
    ensures PlaceOf(store, entities) == Place(store, entities == [], InExternalMarkup(entities), Active(entities), Named(entities))
  {
  }

  /** Entering an entity leaves less to read, and its text goes on the data. */
  lemma EnteringContent(store: Store, before: seq<EntityFrame>, physicalBefore: seq<Unit>, stack: seq<EntityFrame>,
                        now: seq<EntityFrame>, physical: seq<Unit>, name: Name, input: seq<Unit>, depth: nat)
    requires Readable(before) && Readable(now) && SameStack(stack, before) && (before != [] ==> physical == physicalBefore)
    requires input == RemainingOf(before, physicalBefore) && input != [] && input[0] == Char(AMPERSAND)
    requires EntersContent(store, stack, input[1..], now, physical, name, depth)
    ensures SameStack(now[..|before|], before) && |now| == |before| + 1
    ensures PlaceOf(store, now) == Within(PlaceOf(store, before), name, now[|before|].externalMarkup)
    ensures RemainingOf(now, physical) == Units(now[|before|].text)
    ensures StackWork(store, now, physical, 0, CONTENT) < StackWork(store, before, physicalBefore, 0, CONTENT)
  {
    hide StackWork;
    hide ParseReference;
    hide LookUp;
    hide Units;
    SamePlace(store, stack, before);
    var below, frame := now[..|before|], now[|before|];
    SameStackTransitive(below, stack, before);
    SameStackStructure(stack, before, 0);
    assert now == below + [frame];
    assert Readable(below) && frame.Valid();
    SameStackStructure(below, before, 0);
    ModeHere(below, before, 0, CONTENT);
    assert below[..0] == [];
    ContinuePush(store, before, physicalBefore, below, physical, frame, 0, CONTENT, []);
    PlacePush(store, below, frame);
    assert frame.text[0..] == frame.text;
  }

  lemma PlacePush(store: Store, below: seq<EntityFrame>, frame: EntityFrame)
    requires frame.name != [] && !frame.parameter
    ensures PlaceOf(store, below + [frame]) == Within(PlaceOf(store, below), frame.name, frame.externalMarkup)
  {
    assert (below + [frame])[..|below|] == below;
  }

  // Levels of inputs

  /** What is left to read in the inputs from level `from` up; level 0 is the document. */
  ghost function Levels(entities: seq<EntityFrame>, physical: seq<Unit>, from: nat): seq<seq<Unit>>
    requires Readable(entities) && from <= |entities|
  {
    seq(|entities| + 1 - from, i requires 0 <= i < |entities| + 1 - from =>
      if from + i == 0 then physical else entities[from + i - 1].Remaining())
  }

  ghost predicate RunMeets(out: Outcome<seq<byte>>, run: Run, entities: seq<EntityFrame>, physical: seq<Unit>, from: nat)
    requires Readable(entities)
  {
    match out
    case Stopped => true
    case Malformed(why) => run == Torn(why)
    case Value(data) => run.Run? && data == EncodeAll(run.data) && from <= |entities| && run.levels == Levels(entities, physical, from)
  }

  lemma LevelsStart(entities: seq<EntityFrame>, physical: seq<Unit>)
    requires Readable(entities)
    ensures Levels(entities, physical, |entities|) == [] + [RemainingOf(entities, physical)]
  {
  }

  /** Reading on in the top input changes the last level only. */
  lemma LevelsMoved(a: seq<EntityFrame>, pa: seq<Unit>, b: seq<EntityFrame>, pb: seq<Unit>, from: nat, below: seq<seq<Unit>>)
    requires Readable(a) && Readable(b) && SameStack(a, b) && (b != [] ==> pa == pb) && from <= |b|
    requires Levels(b, pb, from) == below + [RemainingOf(b, pb)]
    ensures |a| == |b| && Levels(a, pa, from) == below + [RemainingOf(a, pa)]
  {
    hide EntityFrame.Remaining;
    var la, lb := Levels(a, pa, from), Levels(b, pb, from);
    assert |la| == |lb| == |below| + 1;
    forall i | 0 <= i < |below|
      ensures la[i] == below[i]
    {
      assert lb[i] == below[i];
      if from + i > 0 {
        assert a[..|a| - 1][from + i - 1] == b[..|b| - 1][from + i - 1];
      }
    }
  }

  lemma LevelsPushed(before: seq<EntityFrame>, pb: seq<Unit>, now: seq<EntityFrame>, physical: seq<Unit>, from: nat, below: seq<seq<Unit>>)
    requires Readable(before) && Readable(now) && |now| == |before| + 1 && SameStack(now[..|before|], before)
    requires (before != [] ==> physical == pb) && from <= |before| && Levels(before, pb, from) == below + [RemainingOf(before, pb)]
    ensures Levels(now, physical, from) == below + [RemainingOf(now[..|before|], physical)] + [RemainingOf(now, physical)]
  {
    hide EntityFrame.Remaining;
    var lower := now[..|before|];
    LevelsMoved(lower, physical, before, pb, from, below);
    assert Levels(now, physical, from)[..|below| + 1] == Levels(lower, physical, from);
  }

  lemma EnteredPushed(before: seq<EntityFrame>, now: seq<EntityFrame>, depth: nat)
    requires |now| == |before| + 1 && SameStack(now[..|before|], before) && now[|before|].entryDepth == depth
    ensures Entered(before, now, depth)
  {
  }

  /** The mode of content is that of the place. */
  lemma ModePhysical(entities: seq<EntityFrame>)
    ensures ModeAt(entities, 0, CONTENT).physical == (entities == [])
  {
  }

  // Entities entered by content

  /** The stack has only moved below, and what lies above was entered at the given depth. */
  ghost predicate Entered(before: seq<EntityFrame>, now: seq<EntityFrame>, depth: nat) {
    && |before| <= |now| && SameStack(now[..|before|], before)
    && forall i :: |before| <= i < |now| ==> now[i].entryDepth == depth
  }

  lemma EnteredNone(before: seq<EntityFrame>, now: seq<EntityFrame>, depth: nat)
    requires SameStack(now, before)
    ensures Entered(before, now, depth) && Active(now) == Active(before)
  {
    SameStackStructure(now, before, depth);
    assert now[..|before|] == now;
  }

  lemma EnteredMore(before: seq<EntityFrame>, now: seq<EntityFrame>, later: seq<EntityFrame>, depth: nat)
    requires Entered(before, now, depth) && Entered(now, later, depth)
    ensures Entered(before, later, depth)
  {
    SameStackPrefix(later[..|now|], now, [], |before|);
    assert later[..|now|] + [] == later[..|now|] && later[..|now|][..|before|] == later[..|before|];
    SameStackTransitive(later[..|before|], now[..|before|], before);
    SameStackStructure(later[..|now|], now, depth);
    forall i | |before| <= i < |later|
      ensures later[i].entryDepth == depth
    {
      if i < |now| {
        assert later[..|now|][i] == later[i];
      }
    }
  }

  // What a call delivers

  /** Markup: a tag is accepted exactly under its constraints; anything else is delivered as it is. */
  ghost predicate Answers(out: Outcome<Token>, markup: Parsed<Lexed>, p: Progress, floor: nat, rest: seq<Unit>, needEnd: bool) {
    match out
    case Stopped => true
    case Malformed(why) => markup == Fails(why) || (markup.Parsed? && (markup.value.Unread? || !Accepts(p, floor, markup.value)))
    case Value(token) =>
      && markup.Parsed? && Accepts(p, floor, markup.value) && token == Delivered(markup.value)
      && (!markup.value.Unread? ==> rest == markup.rest) && needEnd == (markup.value.Opens? && markup.value.tag.empty)
  }

  /** Text: the characters of the run, if any, and its entities are on the stack. */
  ghost predicate Spells(out: Outcome<Token>, run: Run, entities: seq<EntityFrame>, physical: seq<Unit>, from: nat)
    requires Readable(entities)
  {
    match out
    case Stopped => true
    case Malformed(why) => run == Torn(why)
    case Value(token) =>
      && run.Run? && token == (if run.data == [] then NoToken else TextToken(EncodeAll(run.data)))
      && from <= |entities| && run.levels == Levels(entities, physical, from)
  }

  ghost predicate Fulfils(out: Outcome<Token>, next: Next, p: Progress, stack: seq<EntityFrame>,
                          entities: seq<EntityFrame>, physical: seq<Unit>, needEnd: bool)
    requires Readable(entities)
  {
    match next
    case AtEnd => out.Stopped? || (if p.names == [] && p.seenRoot then out == Value(EndOfDocument) else out.Malformed?)
    case Marks(markup) =>
      && Answers(out, markup, p, Floor(stack), RemainingOf(entities, physical), needEnd)
      && (out.Value? ==> |entities| == |stack|)
    case Chars(run) => Spells(out, run, entities, physical, |stack|) && (out.Value? ==> !needEnd)
  }

  lemma NextIs(place: Place, inside: bool, free: bool, input: seq<Unit>)
    ensures var next := NextAt(place, inside, free, input);
            && (input == [] ==> next == AtEnd)
            && (input != [] && input[0] == Char(LESS) ==> next == Marks(MarkupAt(place, inside, free, input[1..])))
            && (input != [] && input[0] != Char(LESS) ==> next == Chars(TextAt(place, inside, input, false, 0)))
            && (input != [] && input[0].Illegal? ==> next == Chars(Torn(IllegalCharacter)))
  {
    hide TextAt;
    TextUnfold(place, inside, input, false, 0);
  }

  lemma FulfilsEnding(out: Outcome<Token>, p: Progress, stack: seq<EntityFrame>, entities: seq<EntityFrame>, physical: seq<Unit>, needEnd: bool)
    requires Readable(entities) && !out.Stopped?
    requires out.Value? <==> p.names == [] && p.seenRoot
    requires out.Value? ==> out.value == EndOfDocument
    ensures Fulfils(out, AtEnd, p, stack, entities, physical, needEnd)
  {
  }

  lemma FulfilsFailure(out: Outcome<Token>, next: Next, p: Progress, stack: seq<EntityFrame>, entities: seq<EntityFrame>,
                       physical: seq<Unit>, needEnd: bool)
    requires Readable(entities) && (out.Stopped? || (out.Malformed? && next == Chars(Torn(out.why))))
    ensures Fulfils(out, next, p, stack, entities, physical, needEnd)
  {
  }

  /** A stack of the same height with the same floor promises the same. */
  lemma LengthFulfils(next: Next, p: Progress, a: seq<EntityFrame>, b: seq<EntityFrame>)
    requires |a| == |b| && Floor(a) == Floor(b)
    ensures forall out: Outcome<Token>, entities: seq<EntityFrame>, physical: seq<Unit>, needEnd: bool | Readable(entities) ::
              Fulfils(out, next, p, a, entities, physical, needEnd) <==> Fulfils(out, next, p, b, entities, physical, needEnd)
  {
  }

  lemma FulfilsText(out: Outcome<Token>, run: Run, p: Progress, stack: seq<EntityFrame>, entities: seq<EntityFrame>, physical: seq<Unit>)
    requires Readable(entities) && Spells(out, run, entities, physical, |stack|)
    ensures Fulfils(out, Chars(run), p, stack, entities, physical, false)
    ensures out.Value? && out.value == NoToken ==> EmptyText(Chars(run))
  {
  }

  lemma FulfilsMarkup(out: Outcome<Token>, markup: Parsed<Lexed>, p: Progress, stack: seq<EntityFrame>, entities: seq<EntityFrame>,
                      physical: seq<Unit>, needEnd: bool)
    requires Readable(entities) && Answers(out, markup, p, Floor(stack), RemainingOf(entities, physical), needEnd)
    requires out.Value? ==> |entities| == |stack|
    ensures Fulfils(out, Marks(markup), p, stack, entities, physical, needEnd)
  {
  }

  predicate EmptyText(next: Next) {
    next.Chars? && next.run.Run? && next.run.data == []
  }

  function Remarking(comment: bool, p: Parsed<seq<byte>>): Parsed<Lexed> {
    var (data, rest) :- p;
    Parsed(Remarks(if comment then CommentToken(data) else TextToken(data)), rest)
  }

  predicate Remarkable(token: Token) {
    token.CommentToken? || token.TextToken? || token.InstructionToken? || token.DeclarationToken?
  }

  lemma RemarksAreRemarkable(input: seq<Unit>, physical: bool, inside: bool)
    ensures var i := InstructionAt(input, physical); i.Parsed? && i.value.Remarks? ==> Remarkable(i.value.token)
    ensures var d := DeclarationAt(inside, input); d.Parsed? && d.value.Remarks? ==> Remarkable(d.value.token)
    ensures var i := InstructionAt(input, physical); i.Parsed? ==> i.value.Remarks? || i.value.Unread?
    ensures var d := DeclarationAt(inside, input); d.Parsed? ==> d.value.Remarks? || d.value.Unread?
  {
    hide NameAt;
    hide InstructionRestAt;
    hide CommentAt;
    hide SectionAt;
    hide Expect;
    hide IsNCName;
  }

  lemma ReadsAnswers(out: Outcome<Token>, markup: Parsed<Lexed>, p: Progress, floor: nat, rest: seq<Unit>)
    requires Reads(out, markup, rest) && (markup.Parsed? ==> markup.value.Remarks? || markup.value.Unread?)
    ensures Answers(out, markup, p, floor, rest, false)
  {
  }

  /** The elements below the current entity, which its text cannot close. */
  function Floor(entities: seq<EntityFrame>): nat {
    if entities == [] then 0 else entities[|entities| - 1].entryDepth
  }

  lemma SameFloor(a: seq<EntityFrame>, b: seq<EntityFrame>)
    requires SameStack(a, b)
    ensures Floor(a) == Floor(b) && |a| == |b|
  {
  }

  lemma LengthNone(entities: seq<EntityFrame>)
    ensures |entities| == 0 <==> entities == []
  {
  }

  lemma NamesNothing(elements: seq<ElementFrame>)
    ensures OpenNames(elements) == [] <==> elements == []
  {
  }

  function OpenNames(elements: seq<ElementFrame>): (names: seq<QName>)
    ensures |names| == |elements|
  {
    seq(|elements|, i requires 0 <= i < |elements| => elements[i].name)
  }

  lemma NamesOpen(elements: seq<ElementFrame>, more: seq<ElementFrame>)
    requires |more| == |elements| + 1 && more[..|elements|] == elements
    ensures OpenNames(more) == OpenNames(elements) + [more[|elements|].name]
  {
    assert forall i :: 0 <= i < |elements| ==> more[i] == more[..|elements|][i];
  }

  lemma NamesClose(elements: seq<ElementFrame>)
    requires elements != []
    ensures OpenNames(elements[..|elements| - 1]) == OpenNames(elements)[..|elements| - 1]
    ensures OpenNames(elements)[|elements| - 1] == elements[|elements| - 1].name
  {
  }

  lemma LeftReadable(entities: seq<EntityFrame>)
    requires Readable(entities)
    ensures Readable(Left(entities))
  {
  }

  /** Each live entity knows the elements that were open when it was entered, and they still are. */
  ghost predicate Balanced(entities: seq<EntityFrame>, entered: seq<seq<ElementFrame>>, elements: seq<ElementFrame>) {
    && |entered| == |entities|
    && forall i :: 0 <= i < |entities| ==> entities[i].entryDepth <= |elements| && entered[i] == elements[..entities[i].entryDepth]
  }

  lemma BalancedLeave(entities: seq<EntityFrame>, entered: seq<seq<ElementFrame>>, elements: seq<ElementFrame>, left: seq<EntityFrame>)
    requires Balanced(entities, entered, elements) && left <= entities
    requires forall i :: |left| <= i < |entities| ==> entities[i].entryDepth == |elements|
    ensures Balanced(left, entered[..|left|], elements)
    ensures forall i :: |left| <= i < |entities| ==> entered[i] == elements
  {
    forall i | |left| <= i < |entities|
      ensures entered[i] == elements
    {
      assert elements[..|elements|] == elements;
    }
  }

  lemma BalancedMoved(entities: seq<EntityFrame>, entered: seq<seq<ElementFrame>>, elements: seq<ElementFrame>, moved: seq<EntityFrame>)
    requires Balanced(entities, entered, elements) && SameStack(moved, entities)
    ensures Balanced(moved, entered, elements)
  {
    SameStackStructure(moved, entities, |elements|);
  }

  lemma BalancedOpen(entities: seq<EntityFrame>, entered: seq<seq<ElementFrame>>, elements: seq<ElementFrame>, more: seq<ElementFrame>)
    requires Balanced(entities, entered, elements) && |more| == |elements| + 1 && more[..|elements|] == elements
    ensures Balanced(entities, entered, more)
  {
    forall i | 0 <= i < |entities|
      ensures entered[i] == more[..entities[i].entryDepth]
    {
      assert more[..entities[i].entryDepth] == more[..|elements|][..entities[i].entryDepth];
    }
  }

  lemma BalancedClose(entities: seq<EntityFrame>, entered: seq<seq<ElementFrame>>, elements: seq<ElementFrame>)
    requires Balanced(entities, entered, elements) && DepthsNested(entities, |elements|) && elements != []
    requires entities != [] ==> entities[|entities| - 1].entryDepth < |elements|
    ensures Balanced(entities, entered, elements[..|elements| - 1])
  {
    DepthsNestedLess(entities, |elements|);
    var less := elements[..|elements| - 1];
    forall i | 0 <= i < |entities|
      ensures entities[i].entryDepth <= |less| && entered[i] == less[..entities[i].entryDepth]
    {
      assert less[..entities[i].entryDepth] == elements[..entities[i].entryDepth];
    }
  }

  /** The elements now open, once for each entity that was entered. */
  function EnteredNow(entered: seq<seq<ElementFrame>>, count: nat, elements: seq<ElementFrame>): (more: seq<seq<ElementFrame>>)
    requires |entered| <= count
    ensures |more| == count
    ensures forall i :: 0 <= i < count ==> more[i] == if i < |entered| then entered[i] else elements
  {
    entered + seq(count - |entered|, i => elements)
  }

  lemma BalancedEnter(before: seq<EntityFrame>, entered: seq<seq<ElementFrame>>, elements: seq<ElementFrame>, now: seq<EntityFrame>)
    requires Balanced(before, entered, elements) && Entered(before, now, |elements|)
    ensures |entered| <= |now| && Balanced(now, EnteredNow(entered, |now|, elements), elements)
  {
    SameStackStructure(now[..|before|], before, |elements|);
    forall i | 0 <= i < |now|
      ensures now[i].entryDepth <= |elements|
      ensures EnteredNow(entered, |now|, elements)[i] == elements[..now[i].entryDepth]
    {
      if i < |before| {
        assert now[..|before|][i] == now[i];
      } else {
        assert elements[..|elements|] == elements;
      }
    }
  }

  /** Any number of calls on any input: whatever is read and wherever it stops, closing returns the
      account to where it was before the reader existed. */
  method Session(account: Account, store: Store, maxDepth: nat, maxAttributes: nat, input: seq<Unit>, calls: nat)
    requires Legible(input)
    modifies account
    ensures account.usage.buffered == old(account.usage.buffered)
  {
    hide Balanced;
    if !account.ample && account.usage.buffered + CURSOR_BYTES + READER_BYTES > account.limits.buffered {
      return;
    }
    var reader := new TokenReader(account, store, maxDepth, input);
    var tokens := new Tokenizer(reader, maxAttributes);
    NothingEntered();
    var i := 0;
    while i < calls && !reader.failed && !tokens.complete
      invariant fresh(reader) && fresh(tokens) && tokens.reader == reader && reader.account == account
      invariant tokens.Valid() && tokens.Others() == old(account.usage.buffered)
    {
      var _ := tokens.Token();
      i := i + 1;
    }
    tokens.Close();
  }

  lemma NothingEntered()
    ensures Balanced([], [], [])
  {
  }
}
