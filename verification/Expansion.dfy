/** The meaning of an attribute literal: the recursive expansion of XML 1.0 sections 3.3.3
    and 4.4.5, written without a stack.

    Input is a sequence of characters.  `Illegal` marks the place where decoding fails, and
    the end of the sequence is the end of the input that owns it (end of file for the
    document, the entity boundary for replacement text). */
module Expansion {
  import opened Utf8

  type Name = seq<Rune>

  const LESS: Rune := 0x3C
  const AMPERSAND: Rune := 0x26
  const SEMICOLON: Rune := 0x3B
  const HASH: Rune := 0x23
  const COLON: Rune := 0x3A
  const SPACE: Rune := 0x20
  const MAX_ENTITIES: nat := 64

  /** A general entity of the declaration store. */
  datatype Declaration =
    | Internal(replacement: seq<byte>, externalMarkup: bool)
    | External
    | Unparsed

  /** The declaration store as a reader sees it, with the facts that decide how an
      undeclared name is reported. */
  datatype Store = Store(entities: map<Name, Declaration>, standalone: bool, unread: bool, parameterReferences: bool,
                         attributes: map<Name, seq<AttributeDeclaration>>, attributesComplete: bool)

  datatype Preset = NoDefault | Default(raw: seq<byte>)

  /** An attribute declared for an element; types other than CDATA are tokenized. */
  datatype AttributeDeclaration = AttributeDeclaration(name: Name, tokenized: bool, preset: Preset, externalMarkup: bool)

  datatype Failure =
    | LessThan
    | IllegalCharacter
    | Truncated            // the input ends inside a literal or a reference
    | BadReference
    | ReferencesForbidden
    | UnparsedEntity
    | ExternalEntity
    | StandaloneEntity
    | Recursive
    | TooDeep
    | Undeclared
    | UndeclaredUnread
    | UndeclaredUnassessed
    | Unbalanced           // replacement text does not open and close elements in balance
    | TagConstraint        // a start tag breaks a namespace or attribute constraint
    | TagMismatch          // an end tag does not close the innermost element
    | TagForbidden         // a second root, or too many open elements
    | BadMarkup            // the characters are no tag, comment, instruction or declaration
    | BadText              // character data where it may not stand, or an unescaped ]]>
    | NoRoot               // the document ends before its root element

  /** How one input is read: `physical` says whether it is the document itself rather than
      replacement text, `external` whether it is external markup, and `quote` is the closing
      delimiter if this input owns it. */
  datatype Mode = Mode(normalize: bool, references: bool, physical: bool, external: bool, quote: Rune)

  const NO_QUOTE: Rune := 0

  predicate IsSpace(c: Rune) {
    c == 0x20 || c == 0x9 || c == 0xA || c == 0xD
  }

  predicate IsNameStart(c: Rune) {
    c == 0x3A || c == 0x5F || 0x41 <= c <= 0x5A || 0x61 <= c <= 0x7A || 0xC0 <= c <= 0xD6 || 0xD8 <= c <= 0xF6 ||
    0xF8 <= c <= 0x2FF || 0x370 <= c <= 0x37D || 0x37F <= c <= 0x1FFF || 0x200C <= c <= 0x200D ||
    0x2070 <= c <= 0x218F || 0x2C00 <= c <= 0x2FEF || 0x3001 <= c <= 0xD7FF || 0xF900 <= c <= 0xFDCF ||
    0xFDF0 <= c <= 0xFFFD || 0x10000 <= c <= 0xEFFFF
  }

  predicate IsNameChar(c: Rune) {
    IsNameStart(c) || c == 0x2D || c == 0x2E || 0x30 <= c <= 0x39 || c == 0xB7 || 0x300 <= c <= 0x36F ||
    0x203F <= c <= 0x2040
  }

  predicate IsNCName(name: Name) {
    name != [] && IsNameStart(name[0]) &&
    forall i :: 0 <= i < |name| ==> name[i] != COLON && IsNameChar(name[i])
  }

  // References (XML 1.0 sections 4.1 and 4.6)

  function Digit(c: Rune, base: int): int {
    if 0x30 <= c <= 0x39 then c - 0x30
    else if base == 16 && 0x61 <= c <= 0x66 then c - 0x61 + 10
    else if base == 16 && 0x41 <= c <= 0x46 then c - 0x41 + 10
    else -1
  }

  datatype Reference =
    | Literal(c: Rune, rest: seq<Unit>)
    | General(name: Name, rest: seq<Unit>)
    | Broken(why: Failure)

  function EndOf(input: seq<Unit>): (f: Failure)
    ensures input != [] ==> f == IllegalCharacter
  {
    if input == [] then Truncated else IllegalCharacter
  }

  /** The digits of a character reference and its terminator; `value` has been read. */
  function Digits(input: seq<Unit>, base: int, value: int, some: bool): (r: Reference)
    requires base == 10 || base == 16
    ensures r.Literal? ==> |r.rest| < |input| && IsXmlChar(r.c)
    ensures !r.General?
  {
    if input == [] || input[0].Illegal? then Broken(EndOf(input))
    else
      var c := input[0].c;
      var d := Digit(c, base);
      if d >= 0 then
        if value > (0x10FFFF - d) / base then Broken(BadReference)
        else Digits(input[1..], base, value * base + d, true)
      else if some && c == SEMICOLON && IsXmlChar(value) then Literal(value, input[1..])
      else Broken(BadReference)
  }

  /** What follows an ampersand and a hash: decimal digits, or x and hexadecimal digits. */
  function CharacterReference(input: seq<Unit>): (r: Reference)
    ensures r.Literal? ==> |r.rest| < |input| && IsXmlChar(r.c)
    ensures !r.General?
  {
    if input != [] && input[0] == Char(0x78) then Digits(input[1..], 16, 0, false) else Digits(input, 10, 0, false)
  }

  /** Length of the longest run of name characters at the front. */
  function NameLength(input: seq<Unit>): (n: nat)
    ensures n <= |input|
    ensures forall i :: 0 <= i < n ==> input[i].Char? && IsNameChar(input[i].c)
    ensures n < |input| && input[n].Char? ==> !IsNameChar(input[n].c)
  {
    if input == [] || input[0].Illegal? || !IsNameChar(input[0].c) then 0 else 1 + NameLength(input[1..])
  }

  function Runes(units: seq<Unit>): (name: Name)
    requires forall i :: 0 <= i < |units| ==> units[i].Char?
  {
    seq(|units|, i requires 0 <= i < |units| => units[i].c)
  }

  /** A name followed by a semicolon.  At the end of the document the name is still checked
      before the missing semicolon is reported. */
  function NamedReference(input: seq<Unit>, physical: bool): (r: Reference)
    ensures r.Literal? || r.General? ==> |r.rest| < |input|
    ensures r.Literal? ==> IsXmlChar(r.c)
    ensures r.General? ==> r.name != []
  {
    if input == [] || input[0].Illegal? then Broken(EndOf(input))
    else if !IsNameStart(input[0].c) then Broken(BadReference)
    else
      var n := NameLength(input);
      if n == |input| then Broken(if physical && !IsNCName(Runes(input)) then BadReference else Truncated)
      else if input[n].Illegal? then Broken(IllegalCharacter)
      else
        var name := Runes(input[..n]);
        if !IsNCName(name) || input[n].c != SEMICOLON then Broken(BadReference)
        else if name in PREDEFINED then Literal(PREDEFINED[name], input[n + 1..])
        else General(name, input[n + 1..])
  }

  /** Whether a name can be read at the front of an input, and why not otherwise. */
  predicate ReadsName(input: seq<Unit>, physical: bool) {
    && input != [] && input[0].Char? && IsNameStart(input[0].c)
    && (NameLength(input) == |input| ==> physical)
    && (NameLength(input) < |input| ==> input[NameLength(input)].Char?)
  }

  function NameFailure(input: seq<Unit>): Failure {
    if input == [] || input[0].Illegal? then EndOf(input)
    else if !IsNameStart(input[0].c) then BadReference
    else EndOf(input[NameLength(input)..])
  }

  const PREDEFINED: map<Name, Rune> := map[
    [0x6C, 0x74] := 0x3C,
    [0x67, 0x74] := 0x3E,
    [0x61, 0x6D, 0x70] := 0x26,
    [0x61, 0x70, 0x6F, 0x73] := 0x27,
    [0x71, 0x75, 0x6F, 0x74] := 0x22]

  /** What follows an ampersand. */
  function ParseReference(input: seq<Unit>, physical: bool): (r: Reference)
    ensures r.Literal? || r.General? ==> |r.rest| < |input|
    ensures r.Literal? ==> IsXmlChar(r.c)
    ensures r.General? ==> r.name != []
  {
    if input == [] || input[0].Illegal? then Broken(EndOf(input))
    else if input[0].c == HASH then CharacterReference(input[1..])
    else NamedReference(input, physical)
  }

  /** Why a named reference cannot be expanded here, or the replacement text if it can. */
  datatype Lookup = Found(replacement: seq<byte>, externalMarkup: bool) | Refused(why: Failure)

  function LookUp(store: Store, name: Name, external: bool, active: set<Name>, named: nat): (l: Lookup)
    ensures l.Found? ==> name in store.entities && name !in active && named < MAX_ENTITIES
  {
    if name in store.entities then
      match store.entities[name]
      case Unparsed => Refused(UnparsedEntity)
      case External => Refused(ExternalEntity)
      case Internal(replacement, markup) =>
        if store.standalone && !external && markup then Refused(StandaloneEntity)
        else if name in active then Refused(Recursive)
        else if named >= MAX_ENTITIES then Refused(TooDeep)
        else Found(replacement, markup)
    else if (!store.standalone || external) && store.unread then Refused(UndeclaredUnread)
    else if (!store.standalone || external) && store.parameterReferences then Refused(UndeclaredUnassessed)
    else Refused(Undeclared)
  }

  datatype Result = Done(value: seq<Rune>, rest: seq<Unit>) | Failed(why: Failure) {
    function Prepend(prefix: seq<Rune>): Result {
      if Done? then Done(prefix + value, rest) else this
    }
  }

  /** Replacement text owns no delimiter. */
  function Nested(mode: Mode, external: bool): Mode {
    mode.(physical := false, external := external, quote := NO_QUOTE)
  }

  /** The expansion of `input`: `active` are the entities being expanded around it and
      `named` their number, parameter entities included. */
  function Expand(store: Store, input: seq<Unit>, mode: Mode, active: set<Name>, named: nat): (r: Result)
    decreases |store.entities.Keys - active|, |input|
  {
    if input == [] then
      if mode.quote == NO_QUOTE then Done([], []) else Failed(Truncated)
    else if input[0].Illegal? then Failed(IllegalCharacter)
    else
      var c, rest := input[0].c, input[1..];
      if mode.quote != NO_QUOTE && c == mode.quote then Done([], rest)
      else if c == LESS then Failed(LessThan)
      else if c != AMPERSAND then
        Expand(store, rest, mode, active, named).Prepend([if mode.normalize && IsSpace(c) then SPACE else c])
      else if !mode.references then Failed(ReferencesForbidden)
      else
        match ParseReference(rest, mode.physical)
        case Broken(why) => Failed(why)
        case Literal(d, rest') => Expand(store, rest', mode, active, named).Prepend([d])
        case General(name, rest') =>
          match LookUp(store, name, mode.external, active, named)
          case Refused(why) => Failed(why)
          case Found(replacement, markup) =>
            Shrinks(store, active, name);
            var inner := Expand(store, Units(replacement), Nested(mode, markup), active + {name}, named + 1);
            if inner.Failed? then inner
            else Expand(store, rest', mode, active, named).Prepend(inner.value)
  }

  lemma Shrinks(store: Store, active: set<Name>, name: Name)
    requires name in store.entities && name !in active
    ensures |store.entities.Keys - (active + {name})| < |store.entities.Keys - active|
  {
    assert store.entities.Keys - active == (store.entities.Keys - (active + {name})) + {name};
  }

  /** The number of steps an expansion can take; entities are finite because no entity is
      expanded inside itself. */
  function Work(store: Store, input: seq<Unit>, mode: Mode, active: set<Name>, named: nat): (n: nat)
    ensures n > 0
    decreases |store.entities.Keys - active|, |input|
  {
    if input == [] || input[0].Illegal? then 1
    else if input[0].c != AMPERSAND then 1 + Work(store, input[1..], mode, active, named)
    else
      match ParseReference(input[1..], mode.physical)
      case Broken(_) => 1
      case Literal(_, rest) => 1 + Work(store, rest, mode, active, named)
      case General(name, rest) =>
        match LookUp(store, name, mode.external, active, named)
        case Refused(_) => 1
        case Found(replacement, markup) =>
          Shrinks(store, active, name);
          1 + Work(store, Units(replacement), Nested(mode, markup), active + {name}, named + 1)
          + Work(store, rest, mode, active, named)
  }

  /** Without a delimiter an expansion reads its input to the end. */
  lemma {:induction false} ExpandReadsAll(store: Store, input: seq<Unit>, mode: Mode, active: set<Name>, named: nat)
    requires mode.quote == NO_QUOTE
    ensures var r := Expand(store, input, mode, active, named); r.Done? ==> r.rest == []
    decreases |input|
  {
    if input != [] && input[0].Char? {
      if input[0].c != AMPERSAND {
        ExpandReadsAll(store, input[1..], mode, active, named);
      } else {
        var r := ParseReference(input[1..], mode.physical);
        if !r.Broken? {
          ExpandReadsAll(store, r.rest, mode, active, named);
        }
      }
    }
  }

  /** An expansion goes on reading where it stopped, never earlier. */
  lemma {:induction false} ExpandRest(store: Store, input: seq<Unit>, mode: Mode, active: set<Name>, named: nat)
    ensures var r := Expand(store, input, mode, active, named); r.Done? ==> |r.rest| <= |input|
    decreases |input|
  {
    hide Units;
    if input != [] && input[0].Char? {
      if input[0].c != AMPERSAND {
        ExpandRest(store, input[1..], mode, active, named);
      } else {
        var r := ParseReference(input[1..], mode.physical);
        if !r.Broken? {
          ExpandRest(store, r.rest, mode, active, named);
        }
      }
    }
  }
}
