/** The grammar of tokens as functions of the characters ahead: tags with their attributes, text,
    comments, sections and instructions, without a reader, a stack or an account. */
module Markup {
  import opened Utf8
  import opened Expansion
  import opened Namespaces

  const QUESTION: Rune := 0x3F
  const GREATER: Rune := 0x3E
  const SOLIDUS: Rune := 0x2F
  const EXCLAMATION: Rune := 0x21
  const EQUALS: Rune := 0x3D
  const HYPHEN: Rune := 0x2D
  const OPEN_BRACKET: Rune := 0x5B
  const CLOSE_BRACKET: Rune := 0x5D
  const CDATA: seq<Rune> := [0x43, 0x44, 0x41, 0x54, 0x41, 0x5B]
  const OCTYPE: seq<Rune> := [0x4F, 0x43, 0x54, 0x59, 0x50, 0x45]
  const ATTRIBUTE_BYTES: nat := 256

  const VERSION: Name := [0x76, 0x65, 0x72, 0x73, 0x69, 0x6F, 0x6E]
  const ENCODING: Name := [0x65, 0x6E, 0x63, 0x6F, 0x64, 0x69, 0x6E, 0x67]
  const STANDALONE: Name := [0x73, 0x74, 0x61, 0x6E, 0x64, 0x61, 0x6C, 0x6F, 0x6E, 0x65]
  const YES: seq<byte> := [0x79, 0x65, 0x73]
  const NO: seq<byte> := [0x6E, 0x6F]

  predicate IsDigit(b: byte) {
    0x30 <= b <= 0x39
  }

  predicate IsLetter(b: byte) {
    0x41 <= b <= 0x5A || 0x61 <= b <= 0x7A
  }

  /** "1." and at least one digit. */
  predicate Version(value: seq<byte>) {
    |value| >= 3 && value[0] == 0x31 && value[1] == 0x2E && forall i :: 2 <= i < |value| ==> IsDigit(value[i])
  }

  predicate EncodingName(value: seq<byte>) {
    && value != [] && IsLetter(value[0])
    && forall i :: 0 < i < |value| ==> IsLetter(value[i]) || IsDigit(value[i]) || value[i] == 0x2E || value[i] == 0x5F || value[i] == 0x2D
  }

  /** The reserved instruction target, in any case. */
  predicate IsXml(name: Name) {
    && |name| == 3 && (name[0] == 0x78 || name[0] == 0x58) && (name[1] == 0x6D || name[1] == 0x4D)
    && (name[2] == 0x6C || name[2] == 0x4C)
  }

  // Names as Go strings, which are sequences of bytes

  function Text(bytes: seq<byte>): (text: string)
    ensures |text| == |bytes| && forall i :: 0 <= i < |bytes| ==> text[i] as int == bytes[i]
  {
    seq(|bytes|, i requires 0 <= i < |bytes| => bytes[i] as char)
  }

  function Spelled(name: Name): string {
    Text(EncodeAll(name))
  }

  /** The first colon, or the length. */
  function Cut(name: Name): (k: nat)
    ensures k <= |name| && (k < |name| ==> name[k] == COLON)
    ensures forall i :: 0 <= i < k ==> name[i] != COLON
  {
    if name == [] || name[0] == COLON then 0 else 1 + Cut(name[1..])
  }

  datatype Qualified = Unqualifiable | Qualified(name: QName)

  function QualifiedName(name: Name): Qualified {
    var k := Cut(name);
    if k == |name| then if IsNCName(name) then Qualified(QName("", Spelled(name))) else Unqualifiable
    else if IsNCName(name[..k]) && IsNCName(name[k + 1..]) then Qualified(QName(Spelled(name[..k]), Spelled(name[k + 1..])))
    else Unqualifiable
  }

  /** A qualified name in its two parts; without a prefix the first one is empty. */
  datatype Label = Label(prefix: Name, local: Name)

  predicate Nameable(l: Label) {
    (l.prefix == [] || IsNCName(l.prefix)) && IsNCName(l.local)
  }

  function Joint(l: Label): Name {
    if l.prefix == [] then l.local else l.prefix + ([COLON] + l.local)
  }

  function QNameOf(l: Label): QName {
    QName(Spelled(l.prefix), Spelled(l.local))
  }

  lemma NoColon(name: Name)
    requires IsNCName(name)
    ensures COLON !in name
  {
  }

  lemma {:induction false} CutBefore(name: Name, rest: Name)
    requires COLON !in name && (rest == [] || rest[0] == COLON)
    ensures Cut(name + rest) == |name|
    decreases |name|
  {
    if name == [] {
      assert name + rest == rest;
    } else {
      assert (name + rest)[0] == name[0] && (name + rest)[1..] == name[1..] + rest;
      CutBefore(name[1..], rest);
    }
  }

  /** A prefix and a local part joined by a colon are taken apart again; so is a local part alone. */
  lemma JointMeans(l: Label)
    requires Nameable(l)
    ensures QualifiedName(Joint(l)) == Qualified(QNameOf(l))
  {
    hide IsNCName;
    var name := Joint(l);
    NoColon(l.local);
    if l.prefix == [] {
      CutBefore(name, []);
      assert name + [] == name && Spelled([]) == "";
    } else {
      NoColon(l.prefix);
      CutBefore(l.prefix, [COLON] + l.local);
      assert name[..|l.prefix|] == l.prefix && name[|l.prefix| + 1..] == l.local;
    }
  }

  /** Every other name is refused. */
  lemma JointIs(name: Name)
    ensures QualifiedName(name).Qualified? <==> exists l :: Nameable(l) && Joint(l) == name
  {
    hide IsNCName;
    if QualifiedName(name).Qualified? {
      var k := Cut(name);
      var l := if k == |name| then Label([], name) else Label(name[..k], name[k + 1..]);
      NoName();
      assert k < |name| ==> name == name[..k] + ([name[k]] + name[k + 1..]);
      assert Nameable(l) && Joint(l) == name;
    } else if l :| Nameable(l) && Joint(l) == name {
      JointMeans(l);
    }
  }

  lemma NoName()
    ensures !IsNCName([])
  {
  }

  /** Names are spelled apart: equal strings come from equal names. */
  lemma SpelledApart(a: Name, b: Name)
    requires (forall i :: 0 <= i < |a| ==> IsXmlChar(a[i])) && (forall i :: 0 <= i < |b| ==> IsXmlChar(b[i]))
    ensures Spelled(a) == Spelled(b) ==> a == b
  {
    if Spelled(a) == Spelled(b) {
      assert forall i :: 0 <= i < |EncodeAll(a)| ==> EncodeAll(a)[i] == Spelled(a)[i] as int == EncodeAll(b)[i];
      assert EncodeAll(a) == EncodeAll(b);
      UnitsOfEncoding(a);
      UnitsOfEncoding(b);
      assert forall i :: 0 <= i < |a| ==> Char(a[i]) == Units(EncodeAll(a))[i] == Char(b[i]);
    }
  }

  // Tokenized attribute values: section 3.3.3 of XML 1.0, the step for declared types other than CDATA

  /** The maximal runs without a space. */
  function Words(value: seq<byte>): (words: seq<seq<byte>>)
    ensures forall i :: 0 <= i < |words| ==> words[i] != [] && 0x20 !in words[i]
  {
    if value == [] then []
    else
      var before, last := Words(value[..|value| - 1]), value[|value| - 1];
      if last == 0x20 then before
      else if before == [] || (|value| > 1 && value[|value| - 2] == 0x20) then before + [[last]]
      else before[..|before| - 1] + [before[|before| - 1] + [last]]
  }

  function Joined(words: seq<seq<byte>>): seq<byte> {
    if words == [] then []
    else if |words| == 1 then words[0]
    else Joined(words[..|words| - 1]) + [0x20] + words[|words| - 1]
  }

  lemma JoinedLast(words: seq<seq<byte>>, last: seq<byte>)
    ensures Joined(words + [last]) == if words == [] then last else Joined(words) + [0x20] + last
  {
    assert (words + [last])[..|words|] == words;
  }

  lemma JoinedLonger(words: seq<seq<byte>>, b: byte)
    requires words != []
    ensures Joined(words[..|words| - 1] + [words[|words| - 1] + [b]]) == Joined(words) + [b]
  {
    hide Joined;
    var before, last := words[..|words| - 1], words[|words| - 1];
    assert words == before + [last];
    JoinedLast(before, last);
    JoinedLast(before, last + [b]);
  }

  lemma JoinedMore(words: seq<seq<byte>>, b: byte)
    ensures Joined(words + [[b]]) == if words == [] then [b] else Joined(words) + [0x20, b]
  {
    assert (words + [[b]])[..|words|] == words;
    if words != [] {
      assert Joined(words) + [0x20] + [b] == Joined(words) + [0x20, b];
    }
  }

  lemma {:induction false} WordsNone(value: seq<byte>)
    ensures Words(value) == [] <==> forall i :: 0 <= i < |value| ==> value[i] == 0x20
    ensures Joined(Words(value)) == [] <==> Words(value) == []
  {
    if value != [] {
      WordsNone(value[..|value| - 1]);
    }
    JoinedNone(Words(value));
  }

  lemma JoinedNone(words: seq<seq<byte>>)
    requires forall i :: 0 <= i < |words| ==> words[i] != []
    ensures Joined(words) == [] <==> words == []
  {
  }

  /** Words of one byte more. */
  lemma WordsStep(value: seq<byte>, i: nat)
    requires i < |value|
    ensures var before, b := Words(value[..i]), value[i];
            Words(value[..i + 1]) ==
            if b == 0x20 then before
            else if before == [] || value[i - 1] == 0x20 then before + [[b]]
            else before[..|before| - 1] + [before[|before| - 1] + [b]]
    ensures Words(value[..i]) != [] ==> i > 0
  {
    assert value[..i + 1][..i] == value[..i];
    assert i > 0 ==> value[..i + 1][i - 1] == value[i - 1];
  }

  /** One byte more. */
  lemma TokenStep(value: seq<byte>, i: nat)
    requires i < |value|
    ensures var out := Joined(Words(value[..i]));
            var spaced := out != [] && i > 0 && value[i - 1] == 0x20;
            Joined(Words(value[..i + 1])) ==
            if value[i] == 0x20 then out else if spaced then out + [0x20, value[i]] else out + [value[i]]
  {
    hide Joined;
    hide Words;
    var before := Words(value[..i]);
    WordsStep(value, i);
    WordsNone(value[..i]);
    JoinedMore(before, value[i]);
    if before != [] {
      JoinedLonger(before, value[i]);
    }
  }

  /** Runs of spaces become one, and none is left at either end. */
  method Tokenize(value: seq<byte>) returns (out: seq<byte>)
    ensures out == Joined(Words(value))
  {
    hide Words;
    hide Joined;
    out := [];
    var space := false;
    NoWords();
    assert value[..0] == [];
    for i := 0 to |value|
      invariant out == Joined(Words(value[..i]))
      invariant space <==> out != [] && i > 0 && value[i - 1] == 0x20
    {
      TokenStep(value, i);
      var b := value[i];
      if b == 0x20 {
        space := out != [];
      } else {
        if space {
          out := out + [0x20];
          space := false;
        }
        out := out + [b];
      }
    }
    assert value[..|value|] == value;
  }

  lemma NoWords()
    ensures Joined(Words([])) == []
  {
  }

  /** An attribute as specified in a tag. */
  datatype Specified = Specified(name: QName, lexical: Name, value: seq<byte>)

  /** What follows in a start tag: its end, or another attribute. */
  datatype Following = Closes(empty: bool) | Another

  /** A tag as it stands in the text, names still with their prefixes. */
  datatype Tag = Tag(name: QName, attributes: seq<Attribute>, empty: bool)

  /** The declaration of an attribute, if the store has one. */
  function DeclaredType(declared: seq<AttributeDeclaration>, lexical: Name): bool {
    exists i :: 0 <= i < |declared| && declared[i].name == lexical && declared[i].tokenized
  }

  function Declarations(store: Store, element: Name): seq<AttributeDeclaration> {
    if element in store.attributes then store.attributes[element] else []
  }

  function SpecifiedNames(specified: seq<Specified>): seq<QName> {
    seq(|specified|, i requires 0 <= i < |specified| => specified[i].name)
  }

  /** What a call delivers.  Nothing is said about the contents of an XML declaration or of a
      document type.  No token means that character data turned out empty, and reading goes on. */
  datatype Token =
    | StartToken(name: QName, attributes: seq<Attribute>)
    | EndToken(endName: QName)
    | TextToken(data: seq<byte>)
    | CommentToken(comment: seq<byte>)
    | InstructionToken(target: Name, instruction: seq<byte>)
    | DeclarationToken
    | NoToken
    | EndOfDocument

  // Characters

  /** What was read and what is left, or why reading failed. */
  datatype Parsed<+T> = Parsed(value: T, rest: seq<Unit>) | Fails(why: Failure) {
    predicate IsFailure() {
      Fails?
    }

    function PropagateFailure<U>(): Parsed<U>
      requires Fails?
    {
      Fails(why)
    }

    function Extract(): (T, seq<Unit>)
      requires Parsed?
    {
      (value, rest)
    }
  }

  function Prefixed<T>(prefix: seq<T>, p: Parsed<seq<T>>): Parsed<seq<T>> {
    if p.Fails? then p else Parsed(prefix + p.value, p.rest)
  }

  function Encoded(p: Parsed<seq<Rune>>): Parsed<seq<byte>> {
    if p.Fails? then Fails(p.why) else Parsed(EncodeAll(p.value), p.rest)
  }

  /** What decides the meaning of a reference at some place: the document itself or replacement
      text, and the entities around it. */
  datatype Place = Place(store: Store, physical: bool, external: bool, active: set<Name>, named: nat)

  function OneChar(input: seq<Unit>): (p: Parsed<Rune>)
    ensures p.Parsed? ==> |p.rest| < |input|
  {
    if input == [] || input[0].Illegal? then Fails(EndOf(input)) else Parsed(input[0].c, input[1..])
  }

  function Expect(input: seq<Unit>, want: seq<Rune>): (p: Parsed<()>)
    ensures p.Parsed? ==> |p.rest| + |want| == |input|
  {
    if want == [] then Parsed((), input)
    else
      var (c, rest) :- OneChar(input);
      if c == want[0] then Expect(rest, want[1..]) else Fails(BadMarkup)
  }

  /** White space, and whether there was any.  It may end with the document, not with an entity. */
  function BlankAt(input: seq<Unit>, physical: bool): (p: Parsed<bool>)
    ensures p.Parsed? ==> |p.rest| <= |input|
    ensures p.Parsed? ==> p.rest == [] || (p.rest[0].Char? && !IsSpace(p.rest[0].c))
  {
    if input == [] then if physical then Parsed(false, []) else Fails(Truncated)
    else if input[0].Illegal? then Fails(IllegalCharacter)
    else if !IsSpace(input[0].c) then Parsed(false, input)
    else
      var (_, rest) :- BlankAt(input[1..], physical);
      Parsed(true, rest)
  }

  function NameAt(input: seq<Unit>, physical: bool): (p: Parsed<Name>)
    ensures p.Parsed? ==> |p.rest| < |input| && p.value != []
  {
    if ReadsName(input, physical)
    then Parsed(Runes(input[..NameLength(input)]), input[NameLength(input)..])
    else Fails(NameFailure(input))
  }

  // Attributes

  /** A quoted literal: its bytes are those of the expansion. */
  function QuotedAt(place: Place, input: seq<Unit>, normalize: bool, references: bool): (p: Parsed<seq<byte>>)
    ensures p.Parsed? ==> |p.rest| < |input|
  {
    var (quote, rest) :- OneChar(input);
    if quote != 0x22 && quote != 0x27 then Fails(BadMarkup)
    else
      var mode := Mode(normalize, references, place.physical, place.external, quote);
      ExpandRest(place.store, rest, mode, place.active, place.named);
      match Expand(place.store, rest, mode, place.active, place.named)
      case Failed(why) => Fails(why)
      case Done(value, behind) => Parsed(EncodeAll(value), behind)
  }

  /** An equals sign with white space around it. */
  function EqualsAt(input: seq<Unit>, physical: bool): (p: Parsed<()>)
    ensures p.Parsed? ==> |p.rest| < |input|
  {
    var (_, sign) :- BlankAt(input, physical);
    var (_, behind) :- Expect(sign, [EQUALS]);
    var (_, rest) :- BlankAt(behind, physical);
    Parsed((), rest)
  }

  function AttributeAt(place: Place, input: seq<Unit>): (p: Parsed<Specified>)
    ensures p.Parsed? ==> |p.rest| < |input|
  {
    var (lexical, equals) :- NameAt(input, place.physical);
    var name := QualifiedName(lexical);
    if name.Unqualifiable? then Fails(BadMarkup)
    else
      var (_, literal) :- EqualsAt(equals, place.physical);
      var (value, rest) :- QuotedAt(place, literal, true, true);
      Parsed(Specified(name.name, lexical, value), rest)
  }

  /** What follows in a tag: its end, or an attribute that white space separates from what is before. */
  function FollowingAt(input: seq<Unit>, physical: bool): (p: Parsed<Following>)
    ensures p.Parsed? ==> |p.rest| <= |input|
  {
    var (separated, next) :- BlankAt(input, physical);
    var (c, _) :- OneChar(next);
    if c == GREATER || c == SOLIDUS then
      var (_, rest) :- Expect(next, if c == GREATER then [GREATER] else [SOLIDUS, GREATER]);
      Parsed(Closes(c == SOLIDUS), rest)
    else if separated then Parsed(Another, next)
    else Fails(BadMarkup)
  }

  /** The attributes of a tag and whether it is that of an empty element. */
  datatype Listed = Listed(specified: seq<Specified>, empty: bool)

  function AttributesAt(place: Place, input: seq<Unit>): (p: Parsed<Listed>)
    ensures p.Parsed? ==> |p.rest| <= |input|
    decreases |input|
  {
    var (following, next) :- FollowingAt(input, place.physical);
    if following.Closes? then Parsed(Listed([], following.empty), next)
    else
      var (first, behind) :- AttributeAt(place, next);
      var (others, rest) :- AttributesAt(place, behind);
      Parsed(others.(specified := [first] + others.specified), rest)
  }

  function Finish(value: seq<byte>, tokenized: bool): string {
    Text(if tokenized then Joined(Words(value)) else value)
  }

  /** The specified attributes with their values as declared. */
  function Given(declared: seq<AttributeDeclaration>, specified: seq<Specified>): (given: seq<Attribute>)
    ensures |given| == |specified|
  {
    seq(|specified|, i requires 0 <= i < |specified| =>
      Attribute(specified[i].name, Finish(specified[i].value, DeclaredType(declared, specified[i].lexical))))
  }

  /** The value of a declared default is expanded like replacement text that stands here. */
  function DefaultAt(place: Place, declaration: AttributeDeclaration): Parsed<string>
    requires declaration.preset.Default?
  {
    match Expand(place.store, Units(declaration.preset.raw), Mode(true, true, false, declaration.externalMarkup, NO_QUOTE),
                 place.active, place.named)
    case Failed(why) => Fails(why)
    case Done(value, rest) => Parsed(Finish(EncodeAll(value), declaration.tokenized), rest)
  }

  /** Declared defaults, each unless its name is specified. */
  function DefaultsAt(place: Place, declared: seq<AttributeDeclaration>, present: seq<QName>, input: seq<Unit>): Parsed<seq<Attribute>> {
    if declared == [] then Parsed([], input)
    else if declared[0].preset.NoDefault? then DefaultsAt(place, declared[1..], present, input)
    else
      var name := QualifiedName(declared[0].name);
      if name.Unqualifiable? then Fails(BadMarkup)
      else if name.name in present then DefaultsAt(place, declared[1..], present, input)
      else
        var (value, _) :- DefaultAt(place, declared[0]);
        Prefixed([Attribute(name.name, value)], DefaultsAt(place, declared[1..], present, input))
  }

  /** All attributes of an element: those specified, then defaults. */
  function DeclaredAt(place: Place, element: Name, specified: seq<Specified>, input: seq<Unit>): Parsed<seq<Attribute>> {
    var declared := Declarations(place.store, element);
    Prefixed(Given(declared, specified), DefaultsAt(place, declared, SpecifiedNames(specified), input))
  }

  // Tags

  /** A start tag behind its opening bracket; `free` says whether an element may begin here. */
  function TagAt(place: Place, free: bool, input: seq<Unit>): Parsed<Tag> {
    var (lexical, behind) :- NameAt(input, place.physical);
    var name := QualifiedName(lexical);
    if name.Unqualifiable? then Fails(BadMarkup)
    else if !free then Fails(TagForbidden)
    else
      var (listed, rest) :- AttributesAt(place, behind);
      var (attributes, end) :- DeclaredAt(place, lexical, listed.specified, rest);
      Parsed(Tag(name.name, attributes, listed.empty), end)
  }

  /** An end tag behind its opening bracket and slash. */
  function EndTagAt(input: seq<Unit>, physical: bool): Parsed<QName> {
    var (lexical, behind) :- NameAt(input, physical);
    var name := QualifiedName(lexical);
    if name.Unqualifiable? then Fails(BadMarkup)
    else
      var (_, bracket) :- BlankAt(behind, physical);
      var (_, rest) :- Expect(bracket, [GREATER]);
      Parsed(name.name, rest)
  }

  // Comments, sections and instructions

  /** Up to the first two hyphens, behind which the comment must end. */
  function CommentAt(input: seq<Unit>): Parsed<seq<Rune>> {
    if Expect(input, [HYPHEN, HYPHEN]).Parsed? then
      var (_, rest) :- Expect(input[2..], [GREATER]);
      Parsed([], rest)
    else
      var (c, rest) :- OneChar(input);
      Prefixed([c], CommentAt(rest))
  }

  /** Up to the first two closing brackets and a greater-than sign. */
  function SectionAt(input: seq<Unit>): Parsed<seq<Rune>> {
    if Expect(input, [CLOSE_BRACKET, CLOSE_BRACKET, GREATER]).Parsed? then Parsed([], input[3..])
    else
      var (c, rest) :- OneChar(input);
      Prefixed([c], SectionAt(rest))
  }

  /** Up to the first question mark and greater-than sign; without white space before it there is
      no data. */
  function InstructionDataAt(input: seq<Unit>, separated: bool): Parsed<seq<Rune>> {
    if Expect(input, [QUESTION, GREATER]).Parsed? then Parsed([], input[2..])
    else
      var (c, rest) :- OneChar(input);
      if c != QUESTION then Prefixed([c], InstructionDataAt(rest, separated))
      else
        var _ :- OneChar(rest);
        if separated then Prefixed([c], InstructionDataAt(rest, separated)) else Fails(BadMarkup)
  }

  // Everything that begins with an opening bracket

  datatype Lexed = Opens(tag: Tag) | Ends(name: QName) | Remarks(token: Token) | Unread

  /** Behind the target. */
  function InstructionRestAt(input: seq<Unit>, physical: bool): Parsed<seq<byte>> {
    var (separated, next) :- BlankAt(input, physical);
    var (c, _) :- OneChar(next);
    if !separated && c != QUESTION then Fails(BadMarkup) else Encoded(InstructionDataAt(next, separated))
  }

  function InstructionAt(input: seq<Unit>, physical: bool): Parsed<Lexed> {
    var (target, behind) :- NameAt(input, physical);
    if !IsNCName(target) then Fails(BadMarkup)
    else if IsXml(target) then if target == [0x78, 0x6D, 0x6C] then Parsed(Unread, behind) else Fails(BadMarkup)
    else
      var (data, rest) :- InstructionRestAt(behind, physical);
      Parsed(Remarks(InstructionToken(target, data)), rest)
  }

  /** Behind an exclamation mark. */
  function DeclarationAt(inside: bool, input: seq<Unit>): Parsed<Lexed> {
    var (c, behind) :- OneChar(input);
    if c == HYPHEN then
      var (_, text) :- Expect(behind, [HYPHEN]);
      var (data, rest) :- Encoded(CommentAt(text));
      Parsed(Remarks(CommentToken(data)), rest)
    else if c == OPEN_BRACKET then
      var (_, text) :- Expect(behind, CDATA);
      var (data, rest) :- Encoded(SectionAt(text));
      if inside then Parsed(Remarks(TextToken(data)), rest) else Fails(BadText)
    else if c == 0x44 then
      var (_, rest) :- Expect(behind, OCTYPE);
      Parsed(Unread, rest)
    else Fails(BadMarkup)
  }

  function OpensAt(place: Place, free: bool, input: seq<Unit>): Parsed<Lexed> {
    var (tag, rest) :- TagAt(place, free, input);
    Parsed(Opens(tag), rest)
  }

  function EndsAt(input: seq<Unit>, physical: bool): Parsed<Lexed> {
    var (name, rest) :- EndTagAt(input, physical);
    Parsed(Ends(name), rest)
  }

  /** Behind an opening bracket: `inside` says whether an element is open, `free` whether one may begin. */
  function MarkupAt(place: Place, inside: bool, free: bool, input: seq<Unit>): Parsed<Lexed> {
    var (c, behind) :- OneChar(input);
    if c == SOLIDUS then EndsAt(behind, place.physical)
    else if c == QUESTION then InstructionAt(behind, place.physical)
    else if c == EXCLAMATION then DeclarationAt(inside, behind)
    else OpensAt(place, free, input)
  }

  // Character data

  /** The characters of a run, and what is left to read in each of the inputs it has gone through,
      the one it began in first. */
  datatype Run = Run(data: seq<Rune>, levels: seq<seq<Unit>>) | Torn(why: Failure) {
    function Prepend(prefix: seq<Rune>): Run {
      if Run? then Run(prefix + data, levels) else this
    }

    function Above(below: seq<seq<Unit>>): Run {
      if Run? then Run(data, below + levels) else this
    }
  }

  /** Inside replacement text. */
  function Within(place: Place, name: Name, external: bool): Place {
    Place(place.store, false, external, place.active + {name}, place.named + 1)
  }

  /** The number of closing brackets just read, two being enough. */
  function Brackets(before: nat, c: Rune): nat {
    if c != CLOSE_BRACKET then 0 else if before < 2 then before + 1 else 2
  }

  /** Character data up to markup, the end of an input, or a reference behind other data.  An
      entity is entered and its text goes on the data; what is behind the reference waits. */
  function TextAt(place: Place, inside: bool, input: seq<Unit>, some: bool, brackets: nat): (r: Run)
    ensures r.Run? ==> r.levels != []
    decreases |place.store.entities.Keys - place.active|, |input|
  {
    if input == [] then Run([], [input])
    else if input[0].Illegal? then Torn(IllegalCharacter)
    else
      var c, rest := input[0].c, input[1..];
      if c == LESS || (c == AMPERSAND && some) then Run([], [input])
      else if c != AMPERSAND then
        if (brackets == 2 && c == GREATER) || (!inside && !IsSpace(c)) then Torn(BadText)
        else TextAt(place, inside, rest, true, Brackets(brackets, c)).Prepend([c])
      else if !inside then Torn(BadText)
      else
        match ParseReference(rest, place.physical)
        case Broken(why) => Torn(why)
        case Literal(d, behind) => TextAt(place, inside, behind, true, 0).Prepend([d])
        case General(name, behind) =>
          match LookUp(place.store, name, place.external, place.active, place.named)
          case Refused(why) => Torn(why)
          case Found(replacement, markup) =>
            Shrinks(place.store, place.active, name);
            TextAt(Within(place, name, markup), inside, Units(replacement), false, 0).Above([behind])
  }

  /** What comes next where reading stands. */
  datatype Next = AtEnd | Marks(markup: Parsed<Lexed>) | Chars(run: Run)

  function NextAt(place: Place, inside: bool, free: bool, input: seq<Unit>): Next {
    if input == [] then AtEnd
    else if input[0] == Char(LESS) then Marks(MarkupAt(place, inside, free, input[1..]))
    else Chars(TextAt(place, inside, input, false, 0))
  }

  // How far a document has come

  /** The scopes and names of the open elements, and whether the root has been seen and closed. */
  datatype Progress = Progress(scopes: seq<Scope>, names: seq<QName>, seenRoot: bool, rootClosed: bool)

  /** The constraints on tags: a start tag obeys those of namespaces, an end tag closes the innermost
      element, which lies above the first `floor`. */
  ghost predicate Accepts(p: Progress, floor: nat, lexed: Lexed) {
    match lexed
    case Opens(tag) => TagAllowed(p.scopes, tag.name, tag.attributes)
    case Ends(name) => |p.names| > floor && p.names[|p.names| - 1] == name
    case _ => true
  }

  function Delivered(lexed: Lexed): Token {
    match lexed
    case Opens(tag) => StartToken(tag.name, tag.attributes)
    case Ends(name) => EndToken(name)
    case Remarks(token) => token
    case Unread => DeclarationToken
  }

  function After(p: Progress, token: Token): Progress {
    match token
    case StartToken(name, attributes) => Progress(p.scopes + [Declared(attributes)], p.names + [name], true, p.rootClosed)
    case EndToken(_) =>
      if p.names == [] || p.scopes == [] then p
      else Progress(p.scopes[..|p.scopes| - 1], p.names[..|p.names| - 1], p.seenRoot, p.rootClosed || |p.names| == 1)
    case _ => p
  }

  /** A start tag is allowed where it stands and an end tag has something to close. */
  ghost predicate Allowed(p: Progress, token: Token) {
    match token
    case StartToken(name, attributes) => TagAllowed(p.scopes, name, attributes) && !p.rootClosed
    case EndToken(name) => p.names != [] && p.names[|p.names| - 1] == name
    case EndOfDocument => p.names == [] && p.seenRoot
    case _ => true
  }

  // The grammar one step at a time, as the loops of the reader take it

  lemma {:induction false} ExpectMore(input: seq<Unit>, want: seq<Rune>, i: nat, rest: seq<Unit>)
    requires i < |want| && Expect(input, want[..i]) == Parsed((), rest)
    ensures var next := OneChar(rest);
            && (next.Fails? ==> Expect(input, want) == Fails(next.why))
            && (next.Parsed? && next.value != want[i] ==> Expect(input, want) == Fails(BadMarkup))
            && (next.Parsed? && next.value == want[i] ==> Expect(input, want[..i + 1]) == Parsed((), next.rest))
    decreases i
  {
    if i > 0 {
      assert want[..i][0] == want[0] && want[..i][1..] == want[1..][..i - 1];
      assert want[..i + 1][0] == want[0] && want[..i + 1][1..] == want[1..][..i];
      ExpectMore(input[1..], want[1..], i - 1, rest);
    } else {
      assert want[..1][1..] == [];
    }
  }

  lemma ExpectNothing(input: seq<Unit>)
    ensures Expect(input, []) == Parsed((), input)
  {
  }

  /** `text` followed by `after` is `before`. */
  ghost predicate Consumed(before: seq<Unit>, text: seq<Rune>, after: seq<Unit>) {
    && |before| == |text| + |after| && before[|text|..] == after
    && forall i :: 0 <= i < |text| ==> before[i] == Char(text[i])
  }

  /** Expected characters are exactly those that were next. */
  lemma {:induction false} ExpectConsumes(input: seq<Unit>, want: seq<Rune>)
    ensures Expect(input, want).Parsed? <==>
            |want| <= |input| && forall i :: 0 <= i < |want| ==> input[i] == Char(want[i])
    ensures Expect(input, want).Parsed? ==> Expect(input, want) == Parsed((), input[|want|..])
    decreases |want|
  {
    if want != [] && input != [] {
      ExpectConsumes(input[1..], want[1..]);
      if Expect(input, want).Parsed? {
        forall i | 0 <= i < |want|
          ensures input[i] == Char(want[i])
        {
          assert i > 0 ==> input[1..][i - 1] == Char(want[1..][i - 1]);
        }
      } else if |want| <= |input| && input[0] == Char(want[0]) {
        var i :| 0 <= i < |want| - 1 && input[1..][i] != Char(want[1..][i]);
        assert input[i + 1] != Char(want[i + 1]);
      }
    }
  }

  /** A run of blanks taken at once. */
  lemma {:induction false} BlankSpan(input: seq<Unit>, count: nat, physical: bool)
    requires count <= |input| && forall i :: 0 <= i < count ==> input[i].Char? && IsSpace(input[i].c)
    ensures BlankAt(input, physical) == Blanks(count > 0, BlankAt(input[count..], physical))
    decreases count
  {
    if count == 0 {
      assert input[0..] == input;
    } else {
      BlankSpan(input[1..], count - 1, physical);
      assert input[1..][count - 1..] == input[count..];
    }
  }

  /** White space that was found before counts too. */
  function Blanks(found: bool, p: Parsed<bool>): Parsed<bool> {
    if p.Parsed? then Parsed(found || p.value, p.rest) else p
  }

  /** The same character up to two times. */
  function Repeated(c: Rune, count: nat): seq<Unit>
    requires count <= 2
  {
    if count == 0 then [] else if count == 1 then [Char(c)] else [Char(c), Char(c)]
  }

  lemma RepeatedMore(c: Rune, count: nat, rest: seq<Unit>)
    requires count < 2 && rest != [] && rest[0] == Char(c)
    ensures Repeated(c, count) + rest == Repeated(c, count + 1) + rest[1..]
  {
  }

  /** A character of a comment behind some hyphens. */
  lemma CommentStep(dashes: nat, input: seq<Unit>)
    requires dashes <= 2
    ensures var all, next := CommentAt(Repeated(HYPHEN, dashes) + input), OneChar(input);
            && (next.Fails? ==> all == Fails(next.why))
            && (next.Parsed? && dashes == 2 ==> all == if next.value == GREATER then Parsed([], next.rest) else Fails(BadMarkup))
            && (next.Parsed? && dashes < 2 && next.value != HYPHEN ==>
                  all == Prefixed(if dashes == 1 then [HYPHEN, next.value] else [next.value], CommentAt(next.rest)))
  {
    var front := Repeated(HYPHEN, dashes) + input;
    ExpectConsumes(front, [HYPHEN, HYPHEN]);
    ExpectConsumes(input, [GREATER]);
    ExpectConsumes(input, [HYPHEN, HYPHEN]);
    if dashes == 0 {
      assert front == input;
    } else if dashes == 1 {
      assert front[1..] == input;
      if input != [] && input[0].Char? && input[0].c != HYPHEN {
        assert CommentAt(input) == Prefixed([input[0].c], CommentAt(input[1..]));
        PrefixedTwice([HYPHEN], [input[0].c], CommentAt(input[1..]));
        assert [HYPHEN] + [input[0].c] == [HYPHEN, input[0].c];
      }
    } else {
      assert front[2..] == input;
    }
  }

  lemma PendingNone(c: Rune, input: seq<Unit>)
    ensures Repeated(c, 0) + input == input
  {
  }

  lemma PrefixedNone<T>(p: Parsed<seq<T>>)
    ensures Prefixed([], p) == p
  {
    if p.Parsed? {
      assert [] + p.value == p.value;
    }
  }

  lemma EncodeNothing()
    ensures EncodeAll([]) == []
  {
  }

  lemma PrefixedTwice<T>(a: seq<T>, b: seq<T>, p: Parsed<seq<T>>)
    ensures Prefixed(a, Prefixed(b, p)) == Prefixed(a + b, p)
  {
    if p.Parsed? {
      assert a + (b + p.value) == a + b + p.value;
    }
  }

  lemma SectionUnfold(input: seq<Unit>)
    ensures var ends := |input| >= 3 && input[0] == Char(CLOSE_BRACKET) && input[1] == Char(CLOSE_BRACKET) && input[2] == Char(GREATER);
            SectionAt(input) ==
            if ends then Parsed([], input[3..])
            else if OneChar(input).Fails? then Fails(OneChar(input).why)
            else Prefixed([input[0].c], SectionAt(input[1..]))
  {
    ExpectConsumes(input, [CLOSE_BRACKET, CLOSE_BRACKET, GREATER]);
  }

  /** A character of a section behind some closing brackets. */
  lemma SectionStep(brackets: nat, input: seq<Unit>)
    requires brackets <= 2
    ensures var all, next := SectionAt(Repeated(CLOSE_BRACKET, brackets) + input), OneChar(input);
            && (next.Fails? ==> all == Fails(next.why))
            && (next.Parsed? && brackets == 2 && next.value == GREATER ==> all == Parsed([], next.rest))
            && (next.Parsed? && brackets == 2 && next.value == CLOSE_BRACKET ==>
                  all == Prefixed([CLOSE_BRACKET], SectionAt(Repeated(CLOSE_BRACKET, 2) + next.rest)))
            && (next.Parsed? && next.value != CLOSE_BRACKET && !(brackets == 2 && next.value == GREATER) ==>
                  all == Prefixed(Closing(brackets) + [next.value], SectionAt(next.rest)))
  {
    hide SectionAt;
    hide Prefixed;
    if brackets == 0 {
      SectionUnfold(input);
      assert Repeated(CLOSE_BRACKET, 0) + input == input;
      assert input != [] && input[0].Char? ==> Closing(0) + [input[0].c] == [input[0].c];
    } else if brackets == 1 {
      SectionOne(input);
    } else {
      SectionTwo(input);
    }
  }

  function Closing(brackets: nat): seq<Rune>
    requires brackets <= 2
  {
    if brackets == 0 then [] else if brackets == 1 then [CLOSE_BRACKET] else [CLOSE_BRACKET, CLOSE_BRACKET]
  }

  lemma SectionOne(input: seq<Unit>)
    ensures var all, next := SectionAt([Char(CLOSE_BRACKET)] + input), OneChar(input);
            && (next.Fails? ==> all == Fails(next.why))
            && (next.Parsed? && next.value != CLOSE_BRACKET ==> all == Prefixed([CLOSE_BRACKET] + [next.value], SectionAt(next.rest)))
  {
    hide SectionAt;
    var front := [Char(CLOSE_BRACKET)] + input;
    SectionUnfold(front);
    SectionUnfold(input);
    assert front[1..] == input;
    if input != [] && input[0].Char? && input[0].c != CLOSE_BRACKET {
      assert front[1] == input[0];
      PrefixedTwice([CLOSE_BRACKET], [input[0].c], SectionAt(input[1..]));
    }
  }

  lemma SectionTwo(input: seq<Unit>)
    ensures var all, next := SectionAt([Char(CLOSE_BRACKET), Char(CLOSE_BRACKET)] + input), OneChar(input);
            && (next.Fails? ==> all == Fails(next.why))
            && (next.Parsed? && next.value == GREATER ==> all == Parsed([], next.rest))
            && (next.Parsed? && next.value == CLOSE_BRACKET ==>
                  all == Prefixed([CLOSE_BRACKET], SectionAt([Char(CLOSE_BRACKET), Char(CLOSE_BRACKET)] + next.rest)))
            && (next.Parsed? && next.value != CLOSE_BRACKET && next.value != GREATER ==>
                  all == Prefixed([CLOSE_BRACKET, CLOSE_BRACKET] + [next.value], SectionAt(next.rest)))
  {
    hide SectionAt;
    var front, fewer := [Char(CLOSE_BRACKET), Char(CLOSE_BRACKET)] + input, [Char(CLOSE_BRACKET)] + input;
    SectionUnfold(front);
    SectionOne(input);
    assert front[1..] == fewer;
    if input != [] && input[0].Char? {
      assert front[2] == input[0] && front[3..] == input[1..];
      if input[0].c == CLOSE_BRACKET {
        assert fewer == [Char(CLOSE_BRACKET), Char(CLOSE_BRACKET)] + input[1..];
      } else if input[0].c != GREATER {
        PrefixedTwice([CLOSE_BRACKET], [CLOSE_BRACKET] + [input[0].c], SectionAt(input[1..]));
        assert [CLOSE_BRACKET] + ([CLOSE_BRACKET] + [input[0].c]) == [CLOSE_BRACKET, CLOSE_BRACKET] + [input[0].c];
      }
    }
  }

  /** A character of an instruction, possibly behind a question mark. */
  lemma InstructionStep(question: bool, input: seq<Unit>, separated: bool)
    ensures var all, next := InstructionDataAt(Repeated(QUESTION, if question then 1 else 0) + input, separated), OneChar(input);
            && (next.Fails? ==> all == Fails(next.why))
            && (next.Parsed? && question && next.value == GREATER ==> all == Parsed([], next.rest))
            && (next.Parsed? && question && next.value != GREATER ==>
                  all == if separated then Prefixed([QUESTION], InstructionDataAt(input, separated)) else Fails(BadMarkup))
            && (next.Parsed? && !question && next.value != QUESTION ==>
                  all == Prefixed([next.value], InstructionDataAt(next.rest, separated)))
  {
    var front := Repeated(QUESTION, if question then 1 else 0) + input;
    ExpectConsumes(front, [QUESTION, GREATER]);
    ExpectConsumes(input, [QUESTION, GREATER]);
    if question {
      assert front[1..] == input && (input != [] ==> front[2..] == input[1..]);
    } else {
      assert front == input;
    }
  }

  /** Attributes listed before those that follow. */
  function Enlisted(specified: seq<Specified>, p: Parsed<Listed>): Parsed<Listed> {
    if p.Fails? then p else Parsed(p.value.(specified := specified + p.value.specified), p.rest)
  }

  lemma EnlistedNone(p: Parsed<Listed>)
    ensures Enlisted([], p) == p
  {
    if p.Parsed? {
      assert [] + p.value.specified == p.value.specified;
    }
  }

  lemma AttributesStep(place: Place, input: seq<Unit>, specified: seq<Specified>)
    ensures var goal, following := Enlisted(specified, AttributesAt(place, input)), FollowingAt(input, place.physical);
            && (following.Fails? ==> goal == Fails(following.why))
            && (following.Parsed? && following.value.Closes? ==> goal == Parsed(Listed(specified, following.value.empty), following.rest))
            && (following.Parsed? && following.value.Another? ==>
                  var first := AttributeAt(place, following.rest);
                  && |following.rest| <= |input|
                  && (first.Fails? ==> goal == Fails(first.why))
                  && (first.Parsed? ==> |first.rest| < |input| && goal == Enlisted(specified + [first.value], AttributesAt(place, first.rest))))
  {
    hide FollowingAt;
    hide AttributeAt;
    var following := FollowingAt(input, place.physical);
    if following.Parsed? && following.value.Another? {
      var first := AttributeAt(place, following.rest);
      if first.Parsed? {
        var others := AttributesAt(place, first.rest);
        if others.Parsed? {
          assert specified + ([first.value] + others.value.specified) == specified + [first.value] + others.value.specified;
        }
      }
    } else {
      assert specified + [] == specified;
    }
  }

  lemma DefaultsStep(place: Place, declared: seq<AttributeDeclaration>, present: seq<QName>, input: seq<Unit>, given: seq<Attribute>)
    requires declared != []
    ensures var goal, skipped := Prefixed(given, DefaultsAt(place, declared, present, input)),
                                 Prefixed(given, DefaultsAt(place, declared[1..], present, input));
            && (declared[0].preset.NoDefault? ==> goal == skipped)
            && (declared[0].preset.Default? ==>
                  var name, value := QualifiedName(declared[0].name), DefaultAt(place, declared[0]);
                  && (name.Unqualifiable? ==> goal == Fails(BadMarkup))
                  && (name.Qualified? && name.name in present ==> goal == skipped)
                  && (name.Qualified? && name.name !in present && value.Fails? ==> goal == Fails(value.why))
                  && (name.Qualified? && name.name !in present && value.Parsed? ==>
                        goal == Prefixed(given + [Attribute(name.name, value.value)], DefaultsAt(place, declared[1..], present, input))))
  {
    hide DefaultAt;
    hide QualifiedName;
    if declared[0].preset.Default? {
      var name, value := QualifiedName(declared[0].name), DefaultAt(place, declared[0]);
      if name.Qualified? && value.Parsed? {
        PrefixedTwice(given, [Attribute(name.name, value.value)], DefaultsAt(place, declared[1..], present, input));
      }
    }
  }

  lemma DefaultsNone(place: Place, declared: seq<AttributeDeclaration>, present: seq<QName>, input: seq<Unit>, given: seq<Attribute>)
    requires declared == []
    ensures Prefixed(given, DefaultsAt(place, declared, present, input)) == Parsed(given, input)
  {
    assert given + [] == given;
  }

  // Character data: levels of inputs

  lemma PrependTwice(a: seq<Rune>, b: seq<Rune>, r: Run)
    ensures r.Prepend(b).Prepend(a) == r.Prepend(a + b)
  {
    if r.Run? {
      assert a + (b + r.data) == a + b + r.data;
    }
  }

  lemma AboveTwice(a: seq<seq<Unit>>, b: seq<seq<Unit>>, r: Run)
    ensures r.Above(b).Above(a) == r.Above(a + b)
  {
    if r.Run? {
      assert a + (b + r.levels) == a + b + r.levels;
    }
  }

  /** Text that may go on in a fast run, all of it plain. */
  predicate Runs(inside: bool, c: Rune) {
    c != LESS && c != AMPERSAND && c != CLOSE_BRACKET && c != GREATER && (inside || IsSpace(c))
  }

  /** A run of text taken at once. */
  lemma {:induction false} TextSpanAt(place: Place, inside: bool, input: seq<Unit>, some: bool, brackets: nat, span: seq<Rune>)
    requires span != [] && |span| <= |input|
    requires forall i :: 0 <= i < |span| ==> input[i] == Char(span[i]) && Runs(inside, span[i])
    ensures TextAt(place, inside, input, some, brackets) == TextAt(place, inside, input[|span|..], true, 0).Prepend(span)
    decreases |span|
  {
    hide ParseReference;
    hide LookUp;
    var first := TextAt(place, inside, input[1..], true, 0);
    assert TextAt(place, inside, input, some, brackets) == first.Prepend([span[0]]);
    if |span| == 1 {
      assert span == [span[0]];
    } else {
      TextSpanAt(place, inside, input[1..], true, 0, span[1..]);
      assert input[1..][|span| - 1..] == input[|span|..];
      PrependTwice([span[0]], span[1..], TextAt(place, inside, input[|span|..], true, 0));
      assert [span[0]] + span[1..] == span;
    }
  }

  lemma TextUnfold(place: Place, inside: bool, input: seq<Unit>, some: bool, brackets: nat)
    ensures var run, next := TextAt(place, inside, input, some, brackets), OneChar(input);
            && (input == [] ==> run == Run([], [input]))
            && (input != [] && next.Fails? ==> run == Torn(next.why))
            && (next.Parsed? ==>
                  var c, rest := next.value, next.rest;
                  if c == LESS || (c == AMPERSAND && some) then run == Run([], [input])
                  else if c != AMPERSAND then
                    run == if (brackets == 2 && c == GREATER) || (!inside && !IsSpace(c)) then Torn(BadText)
                           else TextAt(place, inside, rest, true, Brackets(brackets, c)).Prepend([c])
                  else if !inside then run == Torn(BadText)
                  else
                    match ParseReference(rest, place.physical)
                    case Broken(why) => run == Torn(why)
                    case Literal(d, behind) => run == TextAt(place, inside, behind, true, 0).Prepend([d])
                    case General(name, behind) =>
                      match LookUp(place.store, name, place.external, place.active, place.named)
                      case Refused(why) => run == Torn(why)
                      case Found(replacement, markup) =>
                        run == TextAt(Within(place, name, markup), inside, Units(replacement), false, 0).Above([behind]))
  {
    hide ParseReference;
    hide LookUp;
    hide Units;
  }

  lemma RunNothing(r: Run)
    ensures r.Prepend([]).Above([]) == r
  {
    if r.Run? {
      assert [] + r.data == r.data && [] + r.levels == r.levels;
    }
  }

  lemma RunLonger(r: Run, text: seq<Rune>, more: seq<Rune>, below: seq<seq<Unit>>)
    ensures r.Prepend(more).Prepend(text).Above(below) == r.Prepend(text + more).Above(below)
  {
    PrependTwice(text, more, r);
  }

  lemma RunDeeper(r: Run, behind: seq<Unit>, below: seq<seq<Unit>>)
    ensures r.Above([behind]).Prepend([]).Above(below) == r.Prepend([]).Above(below + [behind])
  {
    AboveTwice(below, [behind], r);
  }

  lemma RunEnds(text: seq<Rune>, below: seq<seq<Unit>>, input: seq<Unit>)
    ensures Run([], [input]).Prepend(text).Above(below) == Run(text, below + [input])
  {
    assert text + [] == text;
  }

  lemma EncodeSome(text: seq<Rune>)
    ensures EncodeAll(text) == [] <==> text == []
  {
    if text != [] {
      assert |EncodeRune(text[|text| - 1])| > 0;
    }
  }
}
