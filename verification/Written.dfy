/** Documents as they are written, and that the tokenizer delivers what was written, and nothing
    that was not. */
module WrittenDocuments {
  import opened Accounts
  import opened Utf8
  import opened Expansion
  import opened References
  import opened WrittenValues
  import opened EntityFrames
  import opened Namespaces
  import opened Markup
  import opened WrittenMarkup
  import opened WrittenAttributes
  import opened TokenReaders
  import opened Tokenizers

  datatype Item =
    | StartItem(name: Label, pairs: seq<Pair>, blanks: seq<Rune>, empty: bool)
    | EndItem(name: Label, blanks: seq<Rune>)
    | TextItem(signs: seq<Sign>)
    | CommentItem(text: seq<Rune>)
    | SectionItem(text: seq<Rune>)
    | InstructionItem(target: Name, blanks: seq<Rune>, text: seq<Rune>)

  /** An item in front of what follows it. */
  function ItemThen(item: Item, rest: seq<Unit>): seq<Unit> {
    match item
    case StartItem(name, pairs, blanks, empty) => [Char(LESS)] + TagThen(name, pairs, blanks, empty, rest)
    case EndItem(name, blanks) => [Char(LESS)] + ([Char(SOLIDUS)] + EndThen(name, blanks, rest))
    case TextItem(signs) => SignsThen(signs, rest)
    case CommentItem(text) =>
      [Char(LESS)] + ([Char(EXCLAMATION)] + ([Char(HYPHEN)] + (Spelt([HYPHEN]) + (Spelt(text) + (Spelt([HYPHEN, HYPHEN, GREATER]) + rest)))))
    case SectionItem(text) =>
      [Char(LESS)] + ([Char(EXCLAMATION)] + ([Char(OPEN_BRACKET)] +
        (Spelt(CDATA) + (Spelt(text) + (Spelt([CLOSE_BRACKET, CLOSE_BRACKET, GREATER]) + rest)))))
    case InstructionItem(target, blanks, text) => [Char(LESS)] + ([Char(QUESTION)] + (Spelt(target) + DataThen(blanks, text, rest)))
  }

  function Written(items: seq<Item>): seq<Unit> {
    if items == [] then [] else ItemThen(items[0], Written(items[1..]))
  }

  /** The tokens an item stands for; an empty element has two. */
  function TokensOf(rules: Rules, item: Item): (tokens: seq<Token>)
    ensures tokens != []
  {
    match item
    case StartItem(name, pairs, _, empty) =>
      [StartToken(QNameOf(name), AttributesOf(rules, name, pairs))] + if empty then [EndToken(QNameOf(name))] else []
    case EndItem(name, _) => [EndToken(QNameOf(name))]
    case TextItem(signs) => [TextToken(EncodeAll(Spoken(signs, false)))]
    case CommentItem(text) => [CommentToken(EncodeAll(text))]
    case SectionItem(text) => [TextToken(EncodeAll(text))]
    case InstructionItem(target, _, text) => [InstructionToken(target, EncodeAll(text))]
  }

  function AllTokens(rules: Rules, items: seq<Item>): seq<Token> {
    if items == [] then [] else TokensOf(rules, items[0]) + AllTokens(rules, items[1..])
  }

  /** What can be written at a place, inside an element or not. */
  ghost predicate Writable(place: Place, inside: bool, item: Item) {
    match item
    case StartItem(name, pairs, blanks, _) => TagFits(place, name, pairs, blanks)
    case EndItem(name, blanks) => Nameable(name) && Blank(blanks)
    case TextItem(signs) => Chunk(inside, signs)
    case CommentItem(text) => Commented(text)
    case SectionItem(text) => Sectioned(text) && inside
    case InstructionItem(target, blanks, text) => IsNCName(target) && !IsXml(target) && DataFits(blanks, text)
  }

  /** The characters that are written without a reference are XML characters. */
  predicate Clean(item: Item) {
    match item
    case StartItem(_, pairs, _, _) => forall i :: 0 <= i < |pairs| ==> CleanSigns(pairs[i].value)
    case TextItem(signs) => CleanSigns(signs)
    case CommentItem(text) => Characters(text)
    case SectionItem(text) => Characters(text)
    case InstructionItem(_, _, text) => Characters(text)
    case _ => true
  }

  predicate Characters(text: seq<Rune>) {
    forall i :: 0 <= i < |text| ==> IsXmlChar(text[i])
  }

  predicate CleanSigns(signs: seq<Sign>) {
    forall i :: 0 <= i < |signs| && signs[i].Itself? ==> IsXmlChar(signs[i].c)
  }

  /** The document itself, before anything is entered. */
  function Outside(store: Store): Place {
    Place(store, true, false, {}, 0)
  }

  /** An item may stand where the document has come to `p`. */
  ghost predicate Stands(rules: Rules, item: Item, p: Progress, maxDepth: nat) {
    match item
    case StartItem(name, pairs, _, _) =>
      TagAllowed(p.scopes, QNameOf(name), AttributesOf(rules, name, pairs)) && !p.rootClosed && |p.names| < maxDepth
    case EndItem(name, _) => p.names != [] && p.names[|p.names| - 1] == QNameOf(name)
    case _ => true
  }

  function Afterwards(p: Progress, tokens: seq<Token>): Progress
    decreases |tokens|
  {
    if tokens == [] then p else Afterwards(After(p, tokens[0]), tokens[1..])
  }

  /** Text cannot follow text unless a reference begins it. */
  predicate Separate(item: Item, next: Item) {
    item.TextItem? && next.TextItem? ==> next.signs != [] && !next.signs[0].Itself?
  }

  /** The rest of a document: each item may stand where it does, and every element is closed at the end. */
  ghost predicate Document(rules: Rules, store: Store, items: seq<Item>, p: Progress, maxDepth: nat)
    decreases |items|
  {
    if items == [] then p.names == [] && p.seenRoot
    else
      && Writable(Outside(store), p.names != [], items[0]) && Clean(items[0]) && Stands(rules, items[0], p, maxDepth)
      && (items[0].StartItem? ==> Governed(Outside(store), rules, items[0].name)) && (|items| > 1 ==> Separate(items[0], items[1]))
      && Document(rules, store, items[1..], Afterwards(p, TokensOf(rules, items[0])), maxDepth)
  }

  function TagOf(rules: Rules, item: Item): Tag
    requires item.StartItem?
  {
    Tag(QNameOf(item.name), AttributesOf(rules, item.name, item.pairs), item.empty)
  }

  /** What a written item is ahead. */
  function NextOf(rules: Rules, item: Item, rest: seq<Unit>): Next {
    match item
    case StartItem(_, _, _, _) => Marks(Parsed(Opens(TagOf(rules, item)), rest))
    case EndItem(name, _) => Marks(Parsed(Ends(QNameOf(name)), rest))
    case TextItem(signs) => Chars(Run(Spoken(signs, false), [rest]))
    case CommentItem(text) => Marks(Parsed(Remarks(CommentToken(EncodeAll(text))), rest))
    case SectionItem(text) => Marks(Parsed(Remarks(TextToken(EncodeAll(text))), rest))
    case InstructionItem(target, _, text) => Marks(Parsed(Remarks(InstructionToken(target, EncodeAll(text))), rest))
  }

  /** Markup is read back. */
  lemma MarkReads(rules: Rules, place: Place, item: Item, inside: bool, free: bool, rest: seq<Unit>)
    requires Writable(place, inside, item) && !item.TextItem?
    requires item.StartItem? ==> free && Governed(place, rules, item.name)
    ensures NextAt(place, inside, free, ItemThen(item, rest)) == NextOf(rules, item, rest)
  {
    hide TagAt;
    hide EndTagAt;
    hide InstructionAt;
    hide DeclarationAt;
    hide PairsThen;
    hide CloseThen;
    hide EndThen;
    hide DataThen;
    hide EncodeAll;
    hide IsNameStart;
    hide IsNameChar;
    hide IsNCName;
    hide IsXml;
    hide Commented;
    hide Sectioned;
    hide DataFits;
    hide Nameable;
    hide AllFit;
    hide AttributesOf;
    hide DeclaredAt;
    Delimiters();
    var input := ItemThen(item, rest)[1..];
    match item {
      case StartItem(name, pairs, blanks, empty) =>
        JointLexical(name);
        assert input == TagThen(name, pairs, blanks, empty, rest) && input[0] == Char(Joint(name)[0]);
        TagReads(place, name, pairs, blanks, empty, rest);
        FitNameable(place, pairs);
        DeclaredReads(place, rules, name, pairs, rest);
      case EndItem(name, blanks) =>
        assert input[1..] == EndThen(name, blanks, rest);
        EndReads(name, blanks, rest, place.physical);
      case InstructionItem(target, blanks, text) =>
        assert input[1..] == Spelt(target) + DataThen(blanks, text, rest);
        InstructionReads(target, blanks, text, rest, place.physical);
      case CommentItem(text) =>
        RemarkReads(rules, item, inside, rest);
      case SectionItem(text) =>
        RemarkReads(rules, item, inside, rest);
    }
  }

  lemma RemarkReads(rules: Rules, item: Item, inside: bool, rest: seq<Unit>)
    requires (item.CommentItem? && Commented(item.text)) || (item.SectionItem? && Sectioned(item.text) && inside)
    ensures var input := ItemThen(item, rest);
            |input| > 2 && input[1] == Char(EXCLAMATION) && Marks(DeclarationAt(inside, input[1..][1..])) == NextOf(rules, item, rest)
  {
    hide CommentAt;
    hide SectionAt;
    hide Expect;
    hide EncodeAll;
    var input := ItemThen(item, rest)[1..][1..];
    if item.CommentItem? {
      var text := Spelt(item.text) + (Spelt([HYPHEN, HYPHEN, GREATER]) + rest);
      assert input[0] == Char(HYPHEN) && input[1..] == Spelt([HYPHEN]) + text;
      ExpectReads([HYPHEN], text);
      CommentReads(item.text, rest);
    } else {
      var text := Spelt(item.text) + (Spelt([CLOSE_BRACKET, CLOSE_BRACKET, GREATER]) + rest);
      assert input[0] == Char(OPEN_BRACKET) && input[1..] == Spelt(CDATA) + text;
      ExpectReads(CDATA, text);
      SectionReads(item.text, rest);
    }
  }

  /** What is written first in a document is what comes next. */
  lemma FirstReads(rules: Rules, store: Store, items: seq<Item>, p: Progress, maxDepth: nat)
    requires items != [] && Document(rules, store, items, p, maxDepth)
    ensures NextAt(Outside(store), p.names != [], !p.rootClosed && |p.names| < maxDepth, Written(items))
            == NextOf(rules, items[0], Written(items[1..]))
  {
    hide Writable;
    hide ItemThen;
    hide NextOf;
    hide NextAt;
    hide TagAllowed;
    hide Document;
    hide TextAt;
    var item, rest := items[0], Written(items[1..]);
    var place := Outside(store);
    DocumentUnfold(rules, store, items, p, maxDepth);
    if item.TextItem? {
      TextStops(rules, store, items, p, maxDepth);
      TextReads(rules, place, item, p.names != [], !p.rootClosed && |p.names| < maxDepth, rest);
    } else {
      MarkReads(rules, place, item, p.names != [], !p.rootClosed && |p.names| < maxDepth, rest);
    }
  }

  lemma DocumentUnfold(rules: Rules, store: Store, items: seq<Item>, p: Progress, maxDepth: nat)
    requires items != [] && Document(rules, store, items, p, maxDepth)
    ensures Writable(Outside(store), p.names != [], items[0]) && Clean(items[0]) && Stands(rules, items[0], p, maxDepth)
    ensures items[0].StartItem? ==> Governed(Outside(store), rules, items[0].name)
    ensures |items| > 1 ==> Separate(items[0], items[1]) && exists inside :: Writable(Outside(store), inside, items[1])
    ensures Document(rules, store, items[1..], Afterwards(p, TokensOf(rules, items[0])), maxDepth)
  {
    hide Writable;
    hide Stands;
    hide TokensOf;
    hide Clean;
    if |items| > 1 {
      assert items[1..][0] == items[1];
    }
  }

  lemma TextReads(rules: Rules, place: Place, item: Item, inside: bool, free: bool, rest: seq<Unit>)
    requires item.TextItem? && Writable(place, inside, item) && Stops(rest)
    ensures NextAt(place, inside, free, ItemThen(item, rest)) == NextOf(rules, item, rest)
  {
    hide TextAt;
    hide Sectioned;
    ChunkReads(place, inside, item.signs, rest);
    ChunkBegins(inside, item.signs, rest);
  }

  lemma ChunkBegins(inside: bool, signs: seq<Sign>, rest: seq<Unit>)
    requires Chunk(inside, signs)
    ensures SignsThen(signs, rest) != [] && SignsThen(signs, rest)[0] != Char(LESS)
  {
    hide Sectioned;
    if signs[0].Itself? {
      assert Spoken(signs, false)[0] == signs[0].c;
    }
  }

  /** Behind text there is markup, a reference or the end. */
  lemma TextStops(rules: Rules, store: Store, items: seq<Item>, p: Progress, maxDepth: nat)
    requires items != [] && items[0].TextItem? && Document(rules, store, items, p, maxDepth)
    ensures Stops(Written(items[1..]))
  {
    hide Document;
    hide PairsThen;
    hide Sectioned;
    DocumentUnfold(rules, store, items, p, maxDepth);
    if |items| > 1 {
      var inside :| Writable(Outside(store), inside, items[1]);
      assert items[1..][0] == items[1];
    }
  }

  // Whatever is read was written

  /** What comes next is markup or text without an entity, and can be read. */
  predicate Legitimate(next: Next) {
    match next
    case Marks(markup) => markup.Parsed? && !markup.value.Unread?
    case Chars(run) => run.Run? && |run.levels| == 1
    case AtEnd => false
  }

  function Remainder(next: Next): seq<Unit>
    requires Legitimate(next)
  {
    match next
    case Marks(markup) => markup.rest
    case Chars(run) => run.levels[0]
  }

  /** The item says what comes next; a start tag may have declared attributes. */
  predicate Says(place: Place, item: Item, next: Next)
    requires Legitimate(next)
  {
    if item.StartItem? then
      var declared := DeclaredAt(place, Joint(item.name), AllSpecified(item.pairs), Remainder(next));
      declared.Parsed? && next == Marks(Parsed(Opens(Tag(QNameOf(item.name), declared.value, item.empty)), Remainder(next)))
    else next == NextOf(map[], item, Remainder(next))
  }

  /** Whatever can be read next is a written item in front of the rest, and says what is delivered. */
  lemma NextWritten(place: Place, inside: bool, free: bool, input: seq<Unit>)
    requires Legitimate(NextAt(place, inside, free, input))
    ensures var next := NextAt(place, inside, free, input);
            exists item :: Writable(place, inside, item) && input == ItemThen(item, Remainder(next)) && Says(place, item, next)
  {
    hide TextAt;
    hide MarkupAt;
    hide Writable;
    hide ItemThen;
    hide Chunk;
    var next := NextAt(place, inside, free, input);
    if next.Chars? {
      ChunkIs(place, inside, input);
      var signs :| Chunk(inside, signs) && input == SignsThen(signs, Remainder(next)) && next.run.data == Spoken(signs, false);
      TextIsItem(place, inside, signs, Remainder(next));
      assert Says(place, TextItem(signs), next);
    } else {
      MarkWritten(place, inside, free, input);
    }
  }

  lemma TextIsItem(place: Place, inside: bool, signs: seq<Sign>, rest: seq<Unit>)
    requires Chunk(inside, signs)
    ensures Writable(place, inside, TextItem(signs)) && ItemThen(TextItem(signs), rest) == SignsThen(signs, rest)
  {
  }

  lemma MarkWritten(place: Place, inside: bool, free: bool, input: seq<Unit>)
    requires input != [] && input[0] == Char(LESS) && Legitimate(Marks(MarkupAt(place, inside, free, input[1..])))
    ensures var next := Marks(MarkupAt(place, inside, free, input[1..]));
            exists item :: Writable(place, inside, item) && input == ItemThen(item, Remainder(next)) && Says(place, item, next)
  {
    hide TagAt;
    hide EndTagAt;
    hide InstructionAt;
    hide DeclarationAt;
    hide TagThen;
    hide EndThen;
    hide DataThen;
    hide DataFits;
    hide EncodeAll;
    hide IsNCName;
    hide IsXml;
    hide Nameable;
    hide TagFits;
    hide DeclaredAt;
    hide AllSpecified;
    var behind := input[1..];
    assert input == [Char(LESS)] + behind;
    var next := Marks(MarkupAt(place, inside, free, behind));
    var c, rest := behind[0].c, Remainder(next);
    assert behind == [Char(c)] + behind[1..];
    if c == SOLIDUS {
      EndIs(behind[1..], place.physical);
      var name, blanks :| Nameable(name) && Blank(blanks) && behind[1..] == EndThen(name, blanks, rest)
                          && EndTagAt(behind[1..], place.physical).value == QNameOf(name);
      var item := EndItem(name, blanks);
      assert Writable(place, inside, item) && input == ItemThen(item, rest) && Says(place, item, next);
    } else if c == QUESTION {
      InstructionIs(behind[1..], place.physical);
      var target, blanks, text :| IsNCName(target) && !IsXml(target) && DataFits(blanks, text)
                                  && behind[1..] == Spelt(target) + DataThen(blanks, text, rest)
                                  && InstructionAt(behind[1..], place.physical).value == Remarks(InstructionToken(target, EncodeAll(text)));
      var item := InstructionItem(target, blanks, text);
      assert Writable(place, inside, item) && input == ItemThen(item, rest) && Says(place, item, next);
    } else if c == EXCLAMATION {
      RemarkWritten(place, inside, input, behind[1..]);
    } else {
      TagIs(place, free, behind);
      var name, pairs, blanks :| TagsAs(place, behind, name, pairs, blanks, TagAt(place, free, behind));
      var item := StartItem(name, pairs, blanks, TagAt(place, free, behind).value.empty);
      assert Writable(place, inside, item) && input == ItemThen(item, rest) && Says(place, item, next);
    }
  }

  lemma RemarkWritten(place: Place, inside: bool, input: seq<Unit>, behind: seq<Unit>)
    requires input == [Char(LESS)] + ([Char(EXCLAMATION)] + behind) && Legitimate(Marks(DeclarationAt(inside, behind)))
    ensures var next := Marks(DeclarationAt(inside, behind));
            exists item :: Writable(place, inside, item) && input == ItemThen(item, Remainder(next)) && Says(place, item, next)
  {
    hide CommentAt;
    hide SectionAt;
    hide Expect;
    hide EncodeAll;
    hide Commented;
    hide Sectioned;
    var next := Marks(DeclarationAt(inside, behind));
    var c, rest := behind[0].c, Remainder(next);
    assert behind == [Char(c)] + behind[1..];
    if c == HYPHEN {
      ExpectIs(behind[1..], [HYPHEN]);
      var text := Expect(behind[1..], [HYPHEN]).rest;
      CommentIs(text);
      var item := CommentItem(CommentAt(text).value);
      assert Writable(place, inside, item) && input == ItemThen(item, rest) && Says(place, item, next);
    } else {
      ExpectIs(behind[1..], CDATA);
      var text := Expect(behind[1..], CDATA).rest;
      SectionIs(text);
      var item := SectionItem(SectionAt(text).value);
      assert Writable(place, inside, item) && input == ItemThen(item, rest) && Says(place, item, next);
    }
  }

  // Everything written is legible

  lemma {:induction false} SignsLegible(signs: seq<Sign>, rest: seq<Unit>)
    requires CleanSigns(signs) && Legible(rest) && forall i :: 0 <= i < |signs| && signs[i].ByEntity? ==> IsNCName(signs[i].name)
    ensures Legible(SignsThen(signs, rest))
    decreases |signs|
  {
    hide Legible;
    hide IsXmlChar;
    hide IsNCName;
    hide Spelt;
    hide Forms;
    if signs != [] {
      var behind := SignsThen(signs[1..], rest);
      SignsLegible(signs[1..], rest);
      MarksLegible();
      match signs[0] {
        case Itself(c) =>
          OneLegible(c);
          LegibleMore([Char(c)], behind);
        case ByReference(form, c) =>
          var body := if Forms(form, c) then Body(form, c) else [];
          BodyCharacters(form, c);
          ReferenceLegible(body, behind);
        case ByEntity(name, _) =>
          NameCharacters(name);
          ReferenceLegible(name, behind);
      }
    }
  }

  lemma OneLegible(c: Rune)
    requires IsXmlChar(c)
    ensures Legible([Char(c)])
  {
  }

  lemma ReferenceLegible(body: seq<Rune>, rest: seq<Unit>)
    requires Characters(body) && Legible(rest)
    ensures Legible([Char(AMPERSAND)] + (Spelt(body) + ([Char(SEMICOLON)] + rest)))
  {
    hide Legible;
    hide Spelt;
    hide Characters;
    MarksLegible();
    SpeltLegible(body);
    LegibleMore([Char(SEMICOLON)], rest);
    LegibleMore(Spelt(body), [Char(SEMICOLON)] + rest);
    LegibleMore([Char(AMPERSAND)], Spelt(body) + ([Char(SEMICOLON)] + rest));
  }

  lemma BodyCharacters(form: Form, c: Rune)
    ensures Characters(if Forms(form, c) then Body(form, c) else [])
  {
    if Forms(form, c) && form.ByNumber? {
      NumeralCharacters(c, form.number.Base(), form.number.upper);
      hide Numeral;
    }
  }

  lemma {:induction false} NumeralCharacters(n: nat, base: nat, upper: seq<bool>)
    requires base == 10 || base == 16
    ensures Characters(Numeral(n, base, upper))
    decreases n
  {
    if n >= base {
      NumeralCharacters(n / base, base, Earlier(upper));
    }
  }

  lemma NameCharacters(name: Name)
    ensures IsNCName(name) || Lexical(name) ==> Characters(name)
  {
  }

  lemma SpeltLegible(runes: seq<Rune>)
    requires Characters(runes)
    ensures Legible(Spelt(runes))
  {
  }

  lemma LegibleMore(a: seq<Unit>, b: seq<Unit>)
    requires Legible(a) && Legible(b)
    ensures Legible(a + b)
  {
  }

  lemma MarksLegible()
    ensures Legible([Char(LESS)]) && Legible([Char(SOLIDUS)]) && Legible([Char(GREATER)]) && Legible([Char(EXCLAMATION)])
    ensures Legible([Char(QUESTION)]) && Legible([Char(0x22)]) && Legible([Char(0x27)]) && Legible([Char(EQUALS)])
    ensures Legible([Char(OPEN_BRACKET)]) && Legible([Char(HYPHEN)]) && Legible([Char(AMPERSAND)]) && Legible([Char(SEMICOLON)])
    ensures Legible(Spelt(CDATA)) && Legible(Spelt([HYPHEN])) && Legible(Spelt([HYPHEN, HYPHEN, GREATER])) && Legible(Spelt([QUESTION, GREATER]))
    ensures Legible(Spelt([CLOSE_BRACKET, CLOSE_BRACKET, GREATER])) && Legible(Spelt([SOLIDUS, GREATER])) && Legible(Spelt([GREATER]))
  {
  }

  lemma BlanksLegible(blanks: seq<Rune>)
    requires Blank(blanks)
    ensures Legible(Spelt(blanks))
  {
  }

  lemma {:induction false} EntitiesNamed(store: Store, signs: seq<Sign>, mode: Mode, active: set<Name>, named: nat)
    requires AllAdmitted(store, signs, mode, active, named)
    ensures forall i :: 0 <= i < |signs| && signs[i].ByEntity? ==> IsNCName(signs[i].name)
    decreases |signs|
  {
    hide IsNCName;
    if signs != [] {
      EntitiesNamed(store, signs[1..], mode, active, named);
    }
  }

  lemma PairLegible(place: Place, pair: Pair, rest: seq<Unit>)
    requires Fits(place, pair) && CleanSigns(pair.value) && Legible(rest)
    ensures Legible(PairThen(pair, rest))
  {
    hide Legible;
    hide Spelt;
    hide Characters;
    hide Blank;
    hide IsNCName;
    hide AllAdmitted;
    hide SignsThen;
    hide CleanSigns;
    MarksLegible();
    EntitiesNamed(place.store, pair.value, ValueMode(place, pair.quote), place.active, place.named);
    var end := [Char(pair.quote)] + rest;
    LegibleMore([Char(pair.quote)], rest);
    SignsLegible(pair.value, end);
    LegibleMore([Char(pair.quote)], SignsThen(pair.value, end));
    var value := QuoteThen(pair.quote, pair.value, rest);
    BlanksLegible(pair.right);
    LegibleMore(Spelt(pair.right), value);
    LegibleMore([Char(EQUALS)], Spelt(pair.right) + value);
    BlanksLegible(pair.left);
    LegibleMore(Spelt(pair.left), [Char(EQUALS)] + (Spelt(pair.right) + value));
    JointLexical(pair.name);
    NameCharacters(Joint(pair.name));
    SpeltLegible(Joint(pair.name));
    LegibleMore(Spelt(Joint(pair.name)), EqualsThen(pair.left, pair.right, value));
    BlanksLegible(pair.before);
    LegibleMore(Spelt(pair.before), NamedThen(pair, rest));
  }

  lemma {:induction false} PairsLegible(place: Place, pairs: seq<Pair>, rest: seq<Unit>)
    requires AllFit(place, pairs) && (forall i :: 0 <= i < |pairs| ==> CleanSigns(pairs[i].value)) && Legible(rest)
    ensures Legible(PairsThen(pairs, rest))
    decreases |pairs|
  {
    hide Fits;
    hide Legible;
    hide PairThen;
    hide CleanSigns;
    if pairs != [] {
      PairsLegible(place, pairs[1..], rest);
      PairLegible(place, pairs[0], PairsThen(pairs[1..], rest));
    }
  }

  lemma ItemLegible(place: Place, inside: bool, item: Item, rest: seq<Unit>)
    requires Writable(place, inside, item) && Clean(item) && Legible(rest)
    ensures Legible(ItemThen(item, rest))
  {
    hide Legible;
    hide Spelt;
    hide Characters;
    hide Blank;
    hide IsNCName;
    hide PairsThen;
    hide SignsThen;
    hide CleanSigns;
    hide Sectioned;
    hide AllFit;
    hide PlainText;
    MarksLegible();
    match item {
      case StartItem(name, pairs, blanks, empty) =>
        var bracket := Spelt(if empty then [SOLIDUS, GREATER] else [GREATER]);
        LegibleMore(bracket, rest);
        BlanksLegible(blanks);
        LegibleMore(Spelt(blanks), bracket + rest);
        PairsLegible(place, pairs, CloseThen(blanks, empty, rest));
        NameLegible(name, PairsThen(pairs, CloseThen(blanks, empty, rest)));
        LegibleMore([Char(LESS)], TagThen(name, pairs, blanks, empty, rest));
      case TextItem(signs) =>
        SignsLegible(signs, rest);
      case EndItem(name, blanks) =>
        LegibleMore([Char(GREATER)], rest);
        BlanksLegible(blanks);
        LegibleMore(Spelt(blanks), [Char(GREATER)] + rest);
        NameLegible(name, Spelt(blanks) + ([Char(GREATER)] + rest));
        LegibleMore([Char(SOLIDUS)], EndThen(name, blanks, rest));
        LegibleMore([Char(LESS)], [Char(SOLIDUS)] + EndThen(name, blanks, rest));
      case _ =>
        RemarkLegible(place, inside, item, rest);
    }
  }

  lemma NameLegible(name: Label, behind: seq<Unit>)
    requires Nameable(name) && Legible(behind)
    ensures Legible(Spelt(Joint(name)) + behind)
  {
    hide Legible;
    hide Spelt;
    JointLexical(name);
    NameCharacters(Joint(name));
    SpeltLegible(Joint(name));
    LegibleMore(Spelt(Joint(name)), behind);
  }

  lemma RemarkLegible(place: Place, inside: bool, item: Item, rest: seq<Unit>)
    requires Writable(place, inside, item) && Clean(item) && Legible(rest) && (item.CommentItem? || item.SectionItem? || item.InstructionItem?)
    ensures Legible(ItemThen(item, rest))
  {
    hide Legible;
    hide Spelt;
    hide Characters;
    hide Blank;
    hide IsNCName;
    MarksLegible();
    SpeltLegible(item.text);
    var close := if item.CommentItem? then [HYPHEN, HYPHEN, GREATER] else if item.SectionItem? then [CLOSE_BRACKET, CLOSE_BRACKET, GREATER]
                 else [QUESTION, GREATER];
    LegibleMore(Spelt(close), rest);
    var text := Spelt(item.text) + (Spelt(close) + rest);
    LegibleMore(Spelt(item.text), Spelt(close) + rest);
    if item.InstructionItem? {
      BlanksLegible(item.blanks);
      LegibleMore(Spelt(item.blanks), text);
      NameCharacters(item.target);
      SpeltLegible(item.target);
      LegibleMore(Spelt(item.target), DataThen(item.blanks, item.text, rest));
      LegibleMore([Char(QUESTION)], Spelt(item.target) + DataThen(item.blanks, item.text, rest));
      LegibleMore([Char(LESS)], [Char(QUESTION)] + (Spelt(item.target) + DataThen(item.blanks, item.text, rest)));
    } else {
      var word := if item.CommentItem? then [HYPHEN] else CDATA;
      var lead := if item.CommentItem? then HYPHEN else OPEN_BRACKET;
      LegibleMore(Spelt(word), text);
      LegibleMore([Char(lead)], Spelt(word) + text);
      LegibleMore([Char(EXCLAMATION)], [Char(lead)] + (Spelt(word) + text));
      LegibleMore([Char(LESS)], [Char(EXCLAMATION)] + ([Char(lead)] + (Spelt(word) + text)));
    }
  }

  lemma {:induction false} DocumentLegible(rules: Rules, store: Store, items: seq<Item>, p: Progress, maxDepth: nat)
    requires Document(rules, store, items, p, maxDepth)
    ensures Legible(Written(items))
    decreases |items|
  {
    hide Writable;
    hide ItemThen;
    hide TokensOf;
    hide Document;
    hide Legible;
    hide Clean;
    NothingLegible();
    if items != [] {
      DocumentUnfold(rules, store, items, p, maxDepth);
      DocumentLegible(rules, store, items[1..], Afterwards(p, TokensOf(rules, items[0])), maxDepth);
      ItemLegible(Outside(store), p.names != [], items[0], Written(items[1..]));
    }
  }

  lemma NothingLegible()
    ensures Legible([])
  {
  }

  // Reading back

  /** The tokenizer stands before the items still to come, possibly inside an empty element. */
  ghost predicate Reading(rules: Rules, t: Tokenizer, todo: seq<Item>)
    reads t, t.reader, t.reader.account
  {
    && t.Valid() && !t.reader.failed && t.reader.entities == [] && t.reader.account.ample
    && t.reader.physical == Written(todo)
    && Document(rules, t.reader.store, todo, if t.reader.needEnd then After(t.Standing(), EndToken(Innermost(t.Standing()))) else t.Standing(), t.reader.maxDepth)
  }

  function Innermost(p: Progress): QName {
    if p.names == [] then QName("", "") else p.names[|p.names| - 1]
  }

  ghost function ToCome(rules: Rules, t: Tokenizer, todo: seq<Item>): (tokens: seq<Token>)
    ensures tokens != []
    reads t, t.reader
  {
    (if t.reader.needEnd then [EndToken(Innermost(t.Standing()))] else []) + AllTokens(rules, todo) + [EndOfDocument]
  }

  /** Nothing has been entered, so the document itself is ahead. */
  lemma AheadHere(t: Tokenizer)
    requires t.reader.entities == []
    ensures Readable(t.reader.entities) && CanLeave([], |t.reader.elements|) && Left([]) == []
    ensures t.Ahead() == NextAt(Outside(t.reader.store), t.Standing().names != [],
                                !t.Standing().rootClosed && |t.Standing().names| < t.reader.maxDepth, t.reader.physical)
  {
    hide NextAt;
    NamesNothing(t.reader.elements);
  }

  lemma EndAhead(store: Store, inside: bool, free: bool)
    ensures NextAt(Outside(store), inside, free, Written([])) == AtEnd
  {
  }

  /** A written item that may stand where it does is delivered. */
  lemma ItemDelivered(rules: Rules, out: Outcome<Token>, place: Place, inside: bool, item: Item, rest: seq<Unit>, p: Progress, maxDepth: nat,
                      entities: seq<EntityFrame>, physical: seq<Unit>, needEnd: bool)
    requires Readable(entities) && Writable(place, inside, item) && Stands(rules, item, p, maxDepth) && !out.Stopped?
    requires Fulfils(out, NextOf(rules, item, rest), p, [], entities, physical, needEnd)
    ensures out == Value(TokensOf(rules, item)[0]) && entities == [] && physical == rest && needEnd == (item.StartItem? && item.empty)
    ensures !EmptyText(NextOf(rules, item, rest)) && !TokensOf(rules, item)[0].EndOfDocument?
  {
    hide TagAllowed;
    hide EncodeAll;
    hide Characters;
    hide IsNCName;
    hide IsXml;
    hide RemainingAt;
    if item.TextItem? {
      assert |Levels(entities, physical, 0)| == 1;
      assert Levels(entities, physical, 0)[0] == physical;
    }
  }

  lemma NotEmpty(rules: Rules, place: Place, inside: bool, item: Item, rest: seq<Unit>)
    requires Writable(place, inside, item)
    ensures !EmptyText(NextOf(rules, item, rest))
  {
  }

  lemma ItemAfter(rules: Rules, item: Item, p: Progress)
    ensures Afterwards(p, TokensOf(rules, item)) ==
            var first := After(p, TokensOf(rules, item)[0]);
            if item.StartItem? && item.empty then After(first, EndToken(QNameOf(item.name))) else first
    ensures item.StartItem? ==> Innermost(After(p, TokensOf(rules, item)[0])) == QNameOf(item.name)
    ensures |TokensOf(rules, item)| == if item.StartItem? && item.empty then 2 else 1
    ensures item.StartItem? && item.empty ==> TokensOf(rules, item)[1] == EndToken(QNameOf(item.name))
  {
    hide EncodeAll;
    hide Declared;
    hide QNameOf;
    var first, rest := After(p, TokensOf(rules, item)[0]), TokensOf(rules, item)[1..];
    assert rest == if item.StartItem? && item.empty then [EndToken(QNameOf(item.name))] else [];
    assert Afterwards(p, TokensOf(rules, item)) == Afterwards(first, rest);
    if rest != [] {
      assert rest[1..] == [];
      assert Afterwards(first, rest) == Afterwards(After(first, rest[0]), rest[1..]);
    }
  }

  /** Behind the first token of an item the rest of the document is to come. */
  lemma Advance(rules: Rules, store: Store, todo: seq<Item>, p: Progress, p': Progress, maxDepth: nat)
    requires todo != [] && Document(rules, store, todo, p, maxDepth) && p' == After(p, TokensOf(rules, todo[0])[0])
    ensures var inside := todo[0].StartItem? && todo[0].empty;
            && Document(rules, store, todo[1..], if inside then After(p', EndToken(Innermost(p'))) else p', maxDepth)
            && AllTokens(rules, todo) == [TokensOf(rules, todo[0])[0]] + ((if inside then [EndToken(Innermost(p'))] else []) + AllTokens(rules, todo[1..]))
  {
    hide Document;
    hide TokensOf;
    hide After;
    hide Afterwards;
    hide Innermost;
    DocumentUnfold(rules, store, todo, p, maxDepth);
    ItemAfter(rules, todo[0], p);
    TokensUnfold(rules, todo);
    hide AllTokens;
    FirstToken(TokensOf(rules, todo[0]), AllTokens(rules, todo[1..]));
  }

  lemma FirstToken(tokens: seq<Token>, rest: seq<Token>)
    requires 1 <= |tokens| <= 2
    ensures tokens + rest == [tokens[0]] + ((if |tokens| == 2 then [tokens[1]] else []) + rest)
  {
  }

  lemma InnermostIs(t: Tokenizer)
    ensures t.reader.elements != [] ==> Innermost(t.Standing()) == t.reader.elements[|t.reader.elements| - 1].name
  {
  }

  lemma TokensUnfold(rules: Rules, items: seq<Item>)
    ensures items == [] ==> AllTokens(rules, items) == [] && Written(items) == []
    ensures items != [] ==> AllTokens(rules, items) == TokensOf(rules, items[0]) + AllTokens(rules, items[1..])
  {
  }

  lemma DocumentEnds(rules: Rules, store: Store, p: Progress, maxDepth: nat)
    requires Document(rules, store, [], p, maxDepth)
    ensures p.names == [] && p.seenRoot
  {
  }

  /** One call delivers the first token that is still to come. */
  method Deliver(ghost rules: Rules, t: Tokenizer, ghost todo: seq<Item>) returns (token: Token, ghost todo': seq<Item>)
    requires Reading(rules, t, todo)
    modifies t, t.reader, t.reader.account
    ensures t.Valid() && t.Others() == old(t.Others())
    ensures token.EndOfDocument? ==> old(ToCome(rules, t, todo)) == [token]
    ensures !token.EndOfDocument? ==> Reading(rules, t, todo') && old(ToCome(rules, t, todo)) == [token] + ToCome(rules, t, todo')
  {
    hide ItemThen;
    hide Clean;
    hide AttributesOf;
    hide Separate;
    hide QNameOf;
    hide Governed;
    hide Document;
    hide Written;
    hide TagAllowed;
    hide Balanced;
    hide Agrees;
    hide SumRetained;
    hide NextAt;
    hide NextOf;
    hide AllTokens;
    hide TokensOf;
    hide EncodeAll;
    hide Fulfils;
    hide Writable;
    hide Stands;
    hide CanLeave;
    hide Left;
    hide Declared;
    hide RemainingAt;
    hide Afterwards;
    hide Distinct;
    hide DepthsNested;
    hide Legible;
    hide Named;
    hide Readable;
    hide OpenNames;
    hide After;
    hide Innermost;
    InnermostIs(t);
    ghost var p := t.Standing();
    AheadHere(t);
    TokensUnfold(rules, todo);
    todo' := todo;
    if !t.reader.needEnd && todo != [] {
      FirstReads(rules, t.reader.store, todo, p, t.reader.maxDepth);
      DocumentUnfold(rules, t.reader.store, todo, p, t.reader.maxDepth);
      NotEmpty(rules, Outside(t.reader.store), p.names != [], todo[0], Written(todo[1..]));
    }
    EndAhead(t.reader.store, p.names != [], !p.rootClosed && |p.names| < t.reader.maxDepth);
    var out := t.Token();
    if !old(t.reader.needEnd) {
      if todo == [] {
        DocumentEnds(rules, t.reader.store, p, t.reader.maxDepth);
        FulfilsEnd(out, p, t.reader.entities, t.reader.physical, t.reader.needEnd);
      } else {
        ItemDelivered(rules, out, Outside(t.reader.store), p.names != [], todo[0], Written(todo[1..]), p, t.reader.maxDepth, t.reader.entities, t.reader.physical, t.reader.needEnd);
        Advance(rules, t.reader.store, todo, p, t.Standing(), t.reader.maxDepth);
        todo' := todo[1..];
      }
    }
    token := out.value;
  }

  lemma FulfilsEnd(out: Outcome<Token>, p: Progress, entities: seq<EntityFrame>, physical: seq<Unit>, needEnd: bool)
    requires Readable(entities) && Fulfils(out, AtEnd, p, [], entities, physical, needEnd) && !out.Stopped? && p.names == [] && p.seenRoot
    ensures out == Value(EndOfDocument)
  {
  }

  /** A document that is written and read under ample limits comes back token by token, and the account
      is where it was. */
  method ReadBack(account: Account, store: Store, ghost rules: Rules, maxDepth: nat, maxAttributes: nat, items: seq<Item>) returns (tokens: seq<Token>)
    requires account.ample && Document(rules, store, items, Progress([], [], false, false), maxDepth)
    modifies account
    ensures tokens == AllTokens(rules, items) + [EndOfDocument]
    ensures account.usage.buffered == old(account.usage.buffered)
  {
    hide Document;
    hide Written;
    hide AllTokens;
    hide Balanced;
    hide Agrees;
    hide SumRetained;
    hide Distinct;
    hide DepthsNested;
    hide Legible;
    hide Named;
    hide Readable;
    hide Reading;
    hide ToCome;
    var t := Begin(account, store, rules, maxDepth, maxAttributes, items);
    tokens := [];
    ghost var todo, goal := items, AllTokens(rules, items) + [EndOfDocument];
    while true
      invariant fresh(t) && fresh(t.reader) && t.reader.account == account
      invariant Reading(rules, t, todo) && t.Others() == old(account.usage.buffered)
      invariant tokens + ToCome(rules, t, todo) == goal
      decreases |goal| - |tokens|
    {
      var token;
      token, todo := Deliver(rules, t, todo);
      if !token.EndOfDocument? {
        MovedOver(tokens, token, ToCome(rules, t, todo));
      }
      tokens := tokens + [token];
      if token.EndOfDocument? {
        break;
      }
    }
    t.Close();
  }

  lemma MovedOver(a: seq<Token>, token: Token, b: seq<Token>)
    ensures a + ([token] + b) == (a + [token]) + b
  {
  }

  method Begin(account: Account, store: Store, ghost rules: Rules, maxDepth: nat, maxAttributes: nat, items: seq<Item>) returns (t: Tokenizer)
    requires account.ample && Document(rules, store, items, Progress([], [], false, false), maxDepth)
    modifies account
    ensures fresh(t) && fresh(t.reader) && t.reader.account == account
    ensures Reading(rules, t, items) && t.Others() == old(account.usage.buffered)
    ensures ToCome(rules, t, items) == AllTokens(rules, items) + [EndOfDocument]
  {
    hide Document;
    hide Written;
    hide AllTokens;
    hide Agrees;
    hide SumRetained;
    hide Distinct;
    hide DepthsNested;
    hide Legible;
    hide Named;
    hide Readable;
    hide Balanced;
    DocumentLegible(rules, store, items, Progress([], [], false, false), maxDepth);
    var reader := new TokenReader(account, store, maxDepth, Written(items));
    t := new Tokenizer(reader, maxAttributes);
    NothingEntered();
    assert t.Standing() == Progress([], [], false, false);
  }
}
