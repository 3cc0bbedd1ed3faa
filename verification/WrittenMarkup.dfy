/** How markup is written, in both directions: what is written so is read back, and whatever is
    read was written so. */
module WrittenMarkup {
  import opened Utf8
  import opened Expansion
  import opened References
  import opened WrittenValues
  import opened Namespaces
  import opened Markup

  // White space and names

  predicate Blank(blanks: seq<Rune>) {
    forall i :: 0 <= i < |blanks| ==> IsSpace(blanks[i])
  }

  /** White space does not go on here; only the document itself may end with it. */
  predicate BlankStops(input: seq<Unit>, physical: bool) {
    if input == [] then physical else input[0].Char? && !IsSpace(input[0].c)
  }

  lemma BlanksRead(blanks: seq<Rune>, rest: seq<Unit>, physical: bool)
    requires Blank(blanks) && BlankStops(rest, physical)
    ensures BlankAt(Spelt(blanks) + rest, physical) == Parsed(blanks != [], rest)
  {
    var input := Spelt(blanks) + rest;
    BlankSpan(input, |blanks|, physical);
    assert input[|blanks|..] == rest;
  }

  lemma {:induction false} BlanksAre(input: seq<Unit>, physical: bool)
    requires BlankAt(input, physical).Parsed?
    ensures var p := BlankAt(input, physical);
            && BlankStops(p.rest, physical)
            && exists blanks :: Blank(blanks) && input == Spelt(blanks) + p.rest && p.value == (blanks != [])
    decreases |input|
  {
    var p := BlankAt(input, physical);
    if input == [] || !IsSpace(input[0].c) {
      assert Blank([]) && input == Spelt([]) + p.rest;
    } else {
      BlanksAre(input[1..], physical);
      var blanks :| Blank(blanks) && input[1..] == Spelt(blanks) + p.rest;
      assert Blank([input[0].c] + blanks) && input == Spelt([input[0].c] + blanks) + p.rest;
    }
  }

  /** A name as the characters spell it. */
  predicate Lexical(name: Name) {
    name != [] && IsNameStart(name[0]) && forall i :: 0 <= i < |name| ==> IsNameChar(name[i])
  }

  /** No name goes on here; only in the document itself can it end with the input. */
  predicate NameStops(input: seq<Unit>, physical: bool) {
    if input == [] then physical else input[0].Char? && !IsNameChar(input[0].c)
  }

  lemma NameReads(name: Name, rest: seq<Unit>, physical: bool)
    requires Lexical(name) && NameStops(rest, physical)
    ensures NameAt(Spelt(name) + rest, physical) == Parsed(name, rest)
  {
    hide IsNameStart;
    hide IsNameChar;
    var input := Spelt(name) + rest;
    assert input[0] == Char(name[0]);
    if rest != [] {
      NameEnds(name, rest);
      assert input[|name|] == rest[0];
    } else {
      assert forall i :: 0 <= i < |input| ==> input[i] == Char(name[i]);
      assert NameLength(input) == |input| && input[..|input|] == Spelt(name) && input[|input|..] == rest;
      assert Runes(Spelt(name)) == name;
    }
  }

  lemma NamesAre(input: seq<Unit>, physical: bool)
    requires NameAt(input, physical).Parsed?
    ensures var p := NameAt(input, physical);
            Lexical(p.value) && input == Spelt(p.value) + p.rest && NameStops(p.rest, physical)
  {
    hide IsNameStart;
    hide IsNameChar;
    var n := NameLength(input);
    assert Spelt(Runes(input[..n])) == input[..n] && input == input[..n] + input[n..];
  }

  lemma NCNameLexical(name: Name)
    requires IsNCName(name)
    ensures Lexical(name)
  {
  }

  lemma JointLexical(l: Label)
    requires Nameable(l)
    ensures Lexical(Joint(l))
  {
    NCNameLexical(l.local);
    if l.prefix != [] {
      NCNameLexical(l.prefix);
      ColonInName();
      hide IsNameChar;
      hide IsNameStart;
      var name := Joint(l);
      assert name[0] == l.prefix[0];
    }
  }

  lemma ColonInName()
    ensures IsNameChar(COLON)
  {
  }

  /** Characters that no name goes on with. */
  lemma Delimiters()
    ensures !IsNameChar(EQUALS) && !IsNameChar(GREATER) && !IsNameChar(SOLIDUS) && !IsNameChar(QUESTION)
    ensures forall c :: IsSpace(c) ==> !IsNameChar(c)
    ensures forall c :: IsNameStart(c) ==>
              !IsSpace(c) && c != GREATER && c != SOLIDUS && c != QUESTION && c != EXCLAMATION && c != LESS && c != AMPERSAND
  {
  }

  lemma ExpectReads(want: seq<Rune>, rest: seq<Unit>)
    ensures Expect(Spelt(want) + rest, want) == Parsed((), rest)
  {
    var input := Spelt(want) + rest;
    ExpectConsumes(input, want);
    assert forall i :: 0 <= i < |want| ==> input[i] == Spelt(want)[i];
    assert input[|want|..] == rest;
  }

  lemma ExpectIs(input: seq<Unit>, want: seq<Rune>)
    requires Expect(input, want).Parsed?
    ensures input == Spelt(want) + Expect(input, want).rest
  {
    ExpectConsumes(input, want);
    assert input == input[..|want|] + input[|want|..] && input[..|want|] == Spelt(want);
  }

  // Attributes

  /** White space in front, the name, white space around the equals sign, and the value in quotes. */
  datatype Pair = Pair(before: seq<Rune>, name: Label, left: seq<Rune>, right: seq<Rune>, quote: Rune, value: seq<Sign>)

  function QuoteThen(quote: Rune, value: seq<Sign>, rest: seq<Unit>): seq<Unit> {
    [Char(quote)] + SignsThen(value, [Char(quote)] + rest)
  }

  function EqualsThen(left: seq<Rune>, right: seq<Rune>, rest: seq<Unit>): seq<Unit> {
    Spelt(left) + ([Char(EQUALS)] + (Spelt(right) + rest))
  }

  function NamedThen(pair: Pair, rest: seq<Unit>): seq<Unit> {
    Spelt(Joint(pair.name)) + EqualsThen(pair.left, pair.right, QuoteThen(pair.quote, pair.value, rest))
  }

  function PairThen(pair: Pair, rest: seq<Unit>): seq<Unit> {
    Spelt(pair.before) + NamedThen(pair, rest)
  }

  /** How the value of an attribute is read at a place. */
  function ValueMode(place: Place, quote: Rune): Mode {
    Mode(true, true, place.physical, place.external, quote)
  }

  predicate IsQuote(c: Rune) {
    c == 0x22 || c == 0x27
  }

  ghost predicate Valued(place: Place, quote: Rune, value: seq<Sign>) {
    IsQuote(quote) && AllAdmitted(place.store, value, ValueMode(place, quote), place.active, place.named)
  }

  ghost predicate Fits(place: Place, pair: Pair) {
    && pair.before != [] && Blank(pair.before) && Blank(pair.left) && Blank(pair.right)
    && Nameable(pair.name) && Valued(place, pair.quote, pair.value)
  }

  function SpecifiedOf(pair: Pair): Specified {
    Specified(QNameOf(pair.name), Joint(pair.name), EncodeAll(Spoken(pair.value, true)))
  }

  lemma QuoteReads(place: Place, quote: Rune, value: seq<Sign>, rest: seq<Unit>)
    requires Valued(place, quote, value)
    ensures QuotedAt(place, QuoteThen(quote, value, rest), true, true) == Parsed(EncodeAll(Spoken(value, true)), rest)
  {
    hide EncodeAll;
    hide Spoken;
    hide SignsThen;
    var mode, end := ValueMode(place, quote), [Char(quote)] + rest;
    var input := QuoteThen(quote, value, rest);
    assert input[1..] == SignsThen(value, end);
    SignsExpand(place.store, value, end, mode, place.active, place.named);
    assert end[1..] == rest && Expand(place.store, end, mode, place.active, place.named) == Done([], rest);
    assert Spoken(value, true) + [] == Spoken(value, true);
  }

  lemma QuoteIs(place: Place, input: seq<Unit>)
    requires QuotedAt(place, input, true, true).Parsed?
    ensures var p := QuotedAt(place, input, true, true);
            exists quote, value :: Valued(place, quote, value) && input == QuoteThen(quote, value, p.rest) && p.value == EncodeAll(Spoken(value, true))
  {
    hide EncodeAll;
    hide Spoken;
    hide SignsThen;
    hide Expand;
    var p, quote := QuotedAt(place, input, true, true), input[0].c;
    var mode := ValueMode(place, quote);
    ExpandWritten(place.store, input[1..], mode, place.active, place.named);
    var r := Expand(place.store, input[1..], mode, place.active, place.named);
    var value :| Writes(place.store, value, input[1..], mode, place.active, place.named, r);
    assert input == [input[0]] + input[1..];
    assert Valued(place, quote, value) && input == QuoteThen(quote, value, p.rest);
  }

  lemma EqualsReads(left: seq<Rune>, right: seq<Rune>, rest: seq<Unit>, physical: bool)
    requires Blank(left) && Blank(right) && rest != [] && BlankStops(rest, physical)
    ensures EqualsAt(EqualsThen(left, right, rest), physical) == Parsed((), rest)
  {
    hide BlankAt;
    hide Expect;
    var behind := Spelt(right) + rest;
    var sign := [Char(EQUALS)] + behind;
    BlanksRead(left, sign, physical);
    ExpectReads([EQUALS], behind);
    assert Spelt([EQUALS]) == [Char(EQUALS)];
    BlanksRead(right, rest, physical);
  }

  lemma EqualsIs(input: seq<Unit>, physical: bool)
    requires EqualsAt(input, physical).Parsed?
    ensures var rest := EqualsAt(input, physical).rest;
            exists left, right :: Blank(left) && Blank(right) && input == EqualsThen(left, right, rest)
  {
    hide BlankAt;
    hide Expect;
    BlanksAre(input, physical);
    var sign := BlankAt(input, physical).rest;
    var left :| Blank(left) && input == Spelt(left) + sign;
    ExpectIs(sign, [EQUALS]);
    var behind := Expect(sign, [EQUALS]).rest;
    assert Spelt([EQUALS]) == [Char(EQUALS)];
    BlanksAre(behind, physical);
    var rest := BlankAt(behind, physical).rest;
    var right :| Blank(right) && behind == Spelt(right) + rest;
    assert input == EqualsThen(left, right, rest);
  }

  lemma PairReads(place: Place, pair: Pair, rest: seq<Unit>)
    requires Fits(place, pair)
    ensures FollowingAt(PairThen(pair, rest), place.physical) == Parsed(Another, NamedThen(pair, rest))
    ensures AttributeAt(place, NamedThen(pair, rest)) == Parsed(SpecifiedOf(pair), rest)
  {
    hide NameAt;
    hide EqualsAt;
    hide QuotedAt;
    hide BlankAt;
    hide EncodeAll;
    hide IsNameChar;
    hide IsNameStart;
    hide QualifiedName;
    hide AllAdmitted;
    hide SignsThen;
    hide Spoken;
    hide Nameable;
    Delimiters();
    JointLexical(pair.name);
    JointMeans(pair.name);
    var value := QuoteThen(pair.quote, pair.value, rest);
    var behind := EqualsThen(pair.left, pair.right, value);
    var input := NamedThen(pair, rest);
    assert input[0] == Char(Joint(pair.name)[0]);
    BlanksRead(pair.before, input, place.physical);
    assert behind[0] == if pair.left == [] then Char(EQUALS) else Char(pair.left[0]);
    NameReads(Joint(pair.name), behind, place.physical);
    EqualsReads(pair.left, pair.right, value, place.physical);
    QuoteReads(place, pair.quote, pair.value, rest);
  }

  lemma PairIs(place: Place, input: seq<Unit>, before: seq<Rune>)
    requires AttributeAt(place, input).Parsed? && before != [] && Blank(before)
    ensures var p := AttributeAt(place, input);
            exists pair :: Fits(place, pair) && pair.before == before && input == NamedThen(pair, p.rest) && p.value == SpecifiedOf(pair)
  {
    hide NameAt;
    hide EqualsAt;
    hide QuotedAt;
    hide EncodeAll;
    hide QualifiedName;
    hide AllAdmitted;
    hide SignsThen;
    hide Spoken;
    hide IsNCName;
    var p, name := AttributeAt(place, input), NameAt(input, place.physical);
    NamesAre(input, place.physical);
    JointIs(name.value);
    var l :| Nameable(l) && Joint(l) == name.value;
    JointMeans(l);
    EqualsIs(name.rest, place.physical);
    var literal := EqualsAt(name.rest, place.physical).rest;
    var left, right :| Blank(left) && Blank(right) && name.rest == EqualsThen(left, right, literal);
    QuoteIs(place, literal);
    var quote, value :| Valued(place, quote, value) && literal == QuoteThen(quote, value, p.rest)
                        && QuotedAt(place, literal, true, true).value == EncodeAll(Spoken(value, true));
    var pair := Pair(before, l, left, right, quote, value);
    assert input == NamedThen(pair, p.rest);
    assert p.value == SpecifiedOf(pair);
    assert Fits(place, pair);
  }

  // Start tags

  function CloseThen(blanks: seq<Rune>, empty: bool, rest: seq<Unit>): seq<Unit> {
    Spelt(blanks) + (Spelt(if empty then [SOLIDUS, GREATER] else [GREATER]) + rest)
  }

  function PairsThen(pairs: seq<Pair>, rest: seq<Unit>): seq<Unit> {
    if pairs == [] then rest else PairThen(pairs[0], PairsThen(pairs[1..], rest))
  }

  ghost predicate AllFit(place: Place, pairs: seq<Pair>) {
    forall i :: 0 <= i < |pairs| ==> Fits(place, pairs[i])
  }

  lemma FitNameable(place: Place, pairs: seq<Pair>)
    requires AllFit(place, pairs)
    ensures forall i :: 0 <= i < |pairs| ==> Nameable(pairs[i].name)
  {
    assert forall i :: 0 <= i < |pairs| ==> Fits(place, pairs[i]);
  }

  function AllSpecified(pairs: seq<Pair>): seq<Specified> {
    seq(|pairs|, i requires 0 <= i < |pairs| => SpecifiedOf(pairs[i]))
  }

  lemma CloseReads(blanks: seq<Rune>, empty: bool, rest: seq<Unit>, physical: bool)
    requires Blank(blanks)
    ensures FollowingAt(CloseThen(blanks, empty, rest), physical) == Parsed(Closes(empty), rest)
  {
    hide BlankAt;
    hide Expect;
    var want := if empty then [SOLIDUS, GREATER] else [GREATER];
    var sign := Spelt(want) + rest;
    assert sign[0] == Char(want[0]);
    BlanksRead(blanks, sign, physical);
    ExpectReads(want, rest);
  }

  /** What follows in a tag is its end or, behind white space, something else. */
  lemma FollowingIs(input: seq<Unit>, physical: bool)
    requires FollowingAt(input, physical).Parsed?
    ensures var p := FollowingAt(input, physical);
            exists blanks :: Blank(blanks) &&
              if p.value.Closes? then input == CloseThen(blanks, p.value.empty, p.rest)
              else blanks != [] && input == Spelt(blanks) + p.rest
  {
    hide BlankAt;
    hide Expect;
    var p, next := FollowingAt(input, physical), BlankAt(input, physical).rest;
    BlanksAre(input, physical);
    var blanks :| Blank(blanks) && input == Spelt(blanks) + next && BlankAt(input, physical).value == (blanks != []);
    if p.value.Closes? {
      ExpectIs(next, if p.value.empty then [SOLIDUS, GREATER] else [GREATER]);
      assert input == CloseThen(blanks, p.value.empty, p.rest);
    } else {
      assert input == Spelt(blanks) + p.rest;
    }
  }

  /** The attributes of a written tag are read back in order. */
  lemma {:induction false} PairsRead(place: Place, pairs: seq<Pair>, blanks: seq<Rune>, empty: bool, rest: seq<Unit>)
    requires AllFit(place, pairs) && Blank(blanks)
    ensures AttributesAt(place, PairsThen(pairs, CloseThen(blanks, empty, rest))) == Parsed(Listed(AllSpecified(pairs), empty), rest)
    decreases |pairs|
  {
    hide FollowingAt;
    hide AttributeAt;
    hide CloseThen;
    hide PairThen;
    hide NamedThen;
    hide SpecifiedOf;
    hide Fits;
    hide Blank;
    if pairs == [] {
      CloseReads(blanks, empty, rest, place.physical);
    } else {
      var behind := PairsThen(pairs[1..], CloseThen(blanks, empty, rest));
      PairReads(place, pairs[0], behind);
      PairsRead(place, pairs[1..], blanks, empty, rest);
      assert [SpecifiedOf(pairs[0])] + AllSpecified(pairs[1..]) == AllSpecified(pairs);
    }
  }

  ghost predicate ListsAs(place: Place, input: seq<Unit>, pairs: seq<Pair>, blanks: seq<Rune>, p: Parsed<Listed>) {
    && p.Parsed? && AllFit(place, pairs) && Blank(blanks)
    && input == PairsThen(pairs, CloseThen(blanks, p.value.empty, p.rest)) && p.value.specified == AllSpecified(pairs)
  }

  /** Attributes that are read were written so. */
  lemma {:induction false} PairsAre(place: Place, input: seq<Unit>)
    requires AttributesAt(place, input).Parsed?
    ensures exists pairs, blanks :: ListsAs(place, input, pairs, blanks, AttributesAt(place, input))
    decreases |input|
  {
    hide FollowingAt;
    hide AttributeAt;
    hide CloseThen;
    hide NamedThen;
    hide SpecifiedOf;
    hide Fits;
    hide Blank;
    var p, following := AttributesAt(place, input), FollowingAt(input, place.physical);
    FollowingIs(input, place.physical);
    if following.value.Closes? {
      var blanks :| Blank(blanks) && input == CloseThen(blanks, p.value.empty, p.rest);
      assert ListsAs(place, input, [], blanks, p);
    } else {
      var before :| Blank(before) && before != [] && input == Spelt(before) + following.rest;
      var first := AttributeAt(place, following.rest);
      PairIs(place, following.rest, before);
      var pair :| Fits(place, pair) && pair.before == before && following.rest == NamedThen(pair, first.rest) && first.value == SpecifiedOf(pair);
      PairsAre(place, first.rest);
      var others := AttributesAt(place, first.rest);
      var pairs, blanks :| ListsAs(place, first.rest, pairs, blanks, others);
      ListsOne(place, input, pair, pairs, blanks, first.rest, others);
    }
  }

  lemma ListsOne(place: Place, input: seq<Unit>, pair: Pair, pairs: seq<Pair>, blanks: seq<Rune>, behind: seq<Unit>, others: Parsed<Listed>)
    requires ListsAs(place, behind, pairs, blanks, others) && Fits(place, pair) && input == PairThen(pair, behind)
    ensures ListsAs(place, input, [pair] + pairs, blanks,
                    Parsed(Listed([SpecifiedOf(pair)] + others.value.specified, others.value.empty), others.rest))
  {
    hide CloseThen;
    hide PairThen;
    hide SpecifiedOf;
    hide Fits;
    hide Blank;
    assert ([pair] + pairs)[1..] == pairs;
    assert AllSpecified([pair] + pairs) == [SpecifiedOf(pair)] + AllSpecified(pairs);
  }

  lemma PairsStop(place: Place, pairs: seq<Pair>, blanks: seq<Rune>, empty: bool, rest: seq<Unit>)
    requires AllFit(place, pairs) && Blank(blanks)
    ensures NameStops(PairsThen(pairs, CloseThen(blanks, empty, rest)), place.physical)
  {
    Delimiters();
    hide IsNameChar;
    hide IsNameStart;
    hide NamedThen;
    hide Valued;
    hide Nameable;
    var input := PairsThen(pairs, CloseThen(blanks, empty, rest));
    if pairs == [] {
      assert input[0] == if blanks != [] then Char(blanks[0]) else if empty then Char(SOLIDUS) else Char(GREATER);
    } else {
      assert Fits(place, pairs[0]) && input[0] == Char(pairs[0].before[0]);
    }
  }

  /** A start tag behind its opening bracket. */
  function TagThen(name: Label, pairs: seq<Pair>, blanks: seq<Rune>, empty: bool, rest: seq<Unit>): seq<Unit> {
    Spelt(Joint(name)) + PairsThen(pairs, CloseThen(blanks, empty, rest))
  }

  ghost predicate TagFits(place: Place, name: Label, pairs: seq<Pair>, blanks: seq<Rune>) {
    Nameable(name) && AllFit(place, pairs) && Blank(blanks)
  }

  /** A written start tag is read back with its name, the attributes written and declared, and
      whether it is empty. */
  lemma TagReads(place: Place, name: Label, pairs: seq<Pair>, blanks: seq<Rune>, empty: bool, rest: seq<Unit>)
    requires TagFits(place, name, pairs, blanks)
    ensures var declared := DeclaredAt(place, Joint(name), AllSpecified(pairs), rest);
            TagAt(place, true, TagThen(name, pairs, blanks, empty, rest)) ==
            if declared.Fails? then Fails(declared.why) else Parsed(Tag(QNameOf(name), declared.value, empty), declared.rest)
  {
    hide NameAt;
    hide AttributesAt;
    hide DeclaredAt;
    hide AllSpecified;
    hide QualifiedName;
    hide IsNameStart;
    hide IsNameChar;
    hide PairsThen;
    hide CloseThen;
    hide Nameable;
    hide AllFit;
    var behind := PairsThen(pairs, CloseThen(blanks, empty, rest));
    PairsStop(place, pairs, blanks, empty, rest);
    JointLexical(name);
    JointMeans(name);
    NameReads(Joint(name), behind, place.physical);
    PairsRead(place, pairs, blanks, empty, rest);
  }

  ghost predicate TagsAs(place: Place, input: seq<Unit>, name: Label, pairs: seq<Pair>, blanks: seq<Rune>, p: Parsed<Tag>) {
    && p.Parsed? && TagFits(place, name, pairs, blanks) && p.value.name == QNameOf(name)
    && input == TagThen(name, pairs, blanks, p.value.empty, p.rest)
    && DeclaredAt(place, Joint(name), AllSpecified(pairs), p.rest) == Parsed(p.value.attributes, p.rest)
  }

  /** Declared attributes take nothing from the input. */
  lemma {:induction false} DefaultsRest(place: Place, declared: seq<AttributeDeclaration>, present: seq<QName>, input: seq<Unit>)
    ensures var p := DefaultsAt(place, declared, present, input); p.Parsed? ==> p.rest == input
    decreases |declared|
  {
    hide DefaultAt;
    hide QualifiedName;
    if declared != [] {
      DefaultsRest(place, declared[1..], present, input);
    }
  }

  /** A start tag that is read was written so. */
  lemma TagIs(place: Place, free: bool, input: seq<Unit>)
    requires TagAt(place, free, input).Parsed?
    ensures free && exists name, pairs, blanks :: TagsAs(place, input, name, pairs, blanks, TagAt(place, free, input))
  {
    hide NameAt;
    hide AttributesAt;
    hide DeclaredAt;
    hide AllSpecified;
    hide QualifiedName;
    hide IsNCName;
    hide PairsThen;
    hide CloseThen;
    hide AllFit;
    var p, name := TagAt(place, free, input), NameAt(input, place.physical);
    NamesAre(input, place.physical);
    JointIs(name.value);
    var l :| Nameable(l) && Joint(l) == name.value;
    JointMeans(l);
    PairsAre(place, name.rest);
    var listed := AttributesAt(place, name.rest);
    var pairs, blanks :| ListsAs(place, name.rest, pairs, blanks, listed);
    DeclaredRest(place, name.value, listed.value.specified, listed.rest);
    assert input == TagThen(l, pairs, blanks, p.value.empty, listed.rest);
    assert TagsAs(place, input, l, pairs, blanks, p);
  }

  lemma DeclaredRest(place: Place, element: Name, specified: seq<Specified>, input: seq<Unit>)
    ensures var p := DeclaredAt(place, element, specified, input); p.Parsed? ==> p.rest == input
  {
    DefaultsRest(place, Declarations(place.store, element), SpecifiedNames(specified), input);
  }

  // End tags

  function EndThen(name: Label, blanks: seq<Rune>, rest: seq<Unit>): seq<Unit> {
    Spelt(Joint(name)) + (Spelt(blanks) + ([Char(GREATER)] + rest))
  }

  lemma EndReads(name: Label, blanks: seq<Rune>, rest: seq<Unit>, physical: bool)
    requires Nameable(name) && Blank(blanks)
    ensures EndTagAt(EndThen(name, blanks, rest), physical) == Parsed(QNameOf(name), rest)
  {
    hide NameAt;
    hide BlankAt;
    hide Expect;
    hide QualifiedName;
    hide IsNameStart;
    hide IsNameChar;
    hide Nameable;
    Delimiters();
    var bracket := [Char(GREATER)] + rest;
    var behind := Spelt(blanks) + bracket;
    JointLexical(name);
    JointMeans(name);
    assert behind[0] == if blanks != [] then Char(blanks[0]) else Char(GREATER);
    NameReads(Joint(name), behind, physical);
    BlanksRead(blanks, bracket, physical);
    ExpectReads([GREATER], rest);
    assert Spelt([GREATER]) == [Char(GREATER)];
  }

  lemma EndIs(input: seq<Unit>, physical: bool)
    requires EndTagAt(input, physical).Parsed?
    ensures var p := EndTagAt(input, physical);
            exists name, blanks :: Nameable(name) && Blank(blanks) && input == EndThen(name, blanks, p.rest) && p.value == QNameOf(name)
  {
    hide NameAt;
    hide BlankAt;
    hide Expect;
    hide QualifiedName;
    hide IsNCName;
    hide Blank;
    var p, name := EndTagAt(input, physical), NameAt(input, physical);
    NamesAre(input, physical);
    JointIs(name.value);
    var l :| Nameable(l) && Joint(l) == name.value;
    JointMeans(l);
    BlanksAre(name.rest, physical);
    var bracket := BlankAt(name.rest, physical).rest;
    var blanks :| Blank(blanks) && name.rest == Spelt(blanks) + bracket;
    ExpectIs(bracket, [GREATER]);
    assert Spelt([GREATER]) == [Char(GREATER)];
    assert input == EndThen(l, blanks, p.rest);
  }

  // Comments, sections and instructions

  /** No two hyphens, and none at the end. */
  predicate Commented(text: seq<Rune>) {
    forall i :: 0 <= i < |text| && text[i] == HYPHEN ==> i + 1 < |text| && text[i + 1] != HYPHEN
  }

  lemma {:induction false} CommentReads(text: seq<Rune>, rest: seq<Unit>)
    requires Commented(text)
    ensures CommentAt(Spelt(text) + (Spelt([HYPHEN, HYPHEN, GREATER]) + rest)) == Parsed(text, rest)
    decreases |text|
  {
    hide CommentAt;
    var end := Spelt([HYPHEN, HYPHEN, GREATER]) + rest;
    var input := Spelt(text) + end;
    CommentUnfold(input);
    if text == [] {
      assert input == end && end[3..] == rest;
    } else {
      assert input[0] == Char(text[0]) && (|text| > 1 ==> input[1] == Char(text[1]));
      assert input[1..] == Spelt(text[1..]) + end;
      CommentReads(text[1..], rest);
      assert [text[0]] + text[1..] == text;
    }
  }

  lemma CommentUnfold(input: seq<Unit>)
    ensures var ends := |input| >= 2 && input[0] == Char(HYPHEN) && input[1] == Char(HYPHEN);
            CommentAt(input) ==
            if ends then if |input| >= 3 && input[2] == Char(GREATER) then Parsed([], input[3..]) else Fails(CommentWhy(input[2..]))
            else if input == [] || input[0].Illegal? then Fails(EndOf(input))
            else Prefixed([input[0].c], CommentAt(input[1..]))
  {
    ExpectConsumes(input, [HYPHEN, HYPHEN]);
    if |input| >= 2 {
      ExpectConsumes(input[2..], [GREATER]);
      if |input| >= 3 {
        assert input[2..][1..] == input[3..];
      }
    }
  }

  /** Why a comment does not end behind its hyphens. */
  function CommentWhy(input: seq<Unit>): Failure {
    if input == [] || input[0].Illegal? then EndOf(input) else BadMarkup
  }

  /** A comment that is read has no two hyphens in it and ends with them and the bracket. */
  lemma {:induction false} CommentIs(input: seq<Unit>)
    requires CommentAt(input).Parsed?
    ensures var p := CommentAt(input);
            Commented(p.value) && input == Spelt(p.value) + (Spelt([HYPHEN, HYPHEN, GREATER]) + p.rest)
    decreases |input|
  {
    hide CommentAt;
    CommentUnfold(input);
    var p := CommentAt(input);
    if |input| >= 2 && input[0] == Char(HYPHEN) && input[1] == Char(HYPHEN) {
      assert input == Spelt([]) + (Spelt([HYPHEN, HYPHEN, GREATER]) + p.rest);
    } else {
      CommentIs(input[1..]);
      var text := CommentAt(input[1..]).value;
      assert p.value == [input[0].c] + text;
      assert input[1..][0] == if text != [] then Char(text[0]) else Char(HYPHEN);
      CommentLonger(input[0].c, text);
      assert input == Spelt(p.value) + (Spelt([HYPHEN, HYPHEN, GREATER]) + p.rest);
    }
  }

  lemma CommentLonger(c: Rune, text: seq<Rune>)
    requires Commented(text) && (c == HYPHEN ==> text != [] && text[0] != HYPHEN)
    ensures Commented([c] + text)
  {
  }

  predicate Sectioned(text: seq<Rune>) {
    forall i :: 0 <= i < |text| - 2 && text[i] == CLOSE_BRACKET && text[i + 1] == CLOSE_BRACKET ==> text[i + 2] != GREATER
  }

  lemma {:induction false} SectionReads(text: seq<Rune>, rest: seq<Unit>)
    requires Sectioned(text)
    ensures SectionAt(Spelt(text) + (Spelt([CLOSE_BRACKET, CLOSE_BRACKET, GREATER]) + rest)) == Parsed(text, rest)
    decreases |text|
  {
    hide SectionAt;
    var end := Spelt([CLOSE_BRACKET, CLOSE_BRACKET, GREATER]) + rest;
    var input := Spelt(text) + end;
    SectionUnfold(input);
    if text == [] {
      assert input == end && end[3..] == rest;
    } else {
      assert input[0] == Char(text[0]) && input[1..] == Spelt(text[1..]) + end;
      assert input[2] == if |text| > 2 then Char(text[2]) else Char(CLOSE_BRACKET);
      assert |text| > 1 ==> input[1] == Char(text[1]);
      SectionReads(text[1..], rest);
      assert [text[0]] + text[1..] == text;
    }
  }

  /** A section that is read does not hold its end. */
  lemma {:induction false} SectionIs(input: seq<Unit>)
    requires SectionAt(input).Parsed?
    ensures var p := SectionAt(input);
            Sectioned(p.value) && input == Spelt(p.value) + (Spelt([CLOSE_BRACKET, CLOSE_BRACKET, GREATER]) + p.rest)
    decreases |input|
  {
    hide SectionAt;
    SectionUnfold(input);
    var p, end := SectionAt(input), Spelt([CLOSE_BRACKET, CLOSE_BRACKET, GREATER]);
    if |input| >= 3 && input[0] == Char(CLOSE_BRACKET) && input[1] == Char(CLOSE_BRACKET) && input[2] == Char(GREATER) {
      assert input == Spelt([]) + (end + p.rest);
    } else {
      SectionIs(input[1..]);
      var text := SectionAt(input[1..]).value;
      assert p.value == [input[0].c] + text;
      assert input == Spelt(p.value) + (end + p.rest);
      assert |text| >= 2 ==> input[1] == Char(text[0]) && input[2] == Char(text[1]);
      SectionLonger(input[0].c, text);
    }
  }

  lemma SectionLonger(c: Rune, text: seq<Rune>)
    requires Sectioned(text) && (|text| >= 2 ==> !(c == CLOSE_BRACKET && text[0] == CLOSE_BRACKET && text[1] == GREATER))
    ensures Sectioned([c] + text)
  {
  }

  /** Data that does not hold the end of an instruction. */
  predicate Instructed(text: seq<Rune>) {
    forall i :: 0 <= i < |text| - 1 && text[i] == QUESTION ==> text[i + 1] != GREATER
  }

  lemma InstructionUnfold(input: seq<Unit>, separated: bool)
    ensures var all, ends := InstructionDataAt(input, separated), |input| >= 2 && input[0] == Char(QUESTION) && input[1] == Char(GREATER);
            && (ends ==> all == Parsed([], input[2..]))
            && (!ends && input != [] && input[0].Char? && (input[0].c != QUESTION || (separated && |input| >= 2 && input[1].Char?)) ==>
                  all == Prefixed([input[0].c], InstructionDataAt(input[1..], separated)))
            && (!ends && all.Parsed? ==>
                  && input != [] && input[0].Char? && (input[0].c == QUESTION ==> separated)
                  && all == Prefixed([input[0].c], InstructionDataAt(input[1..], separated)))
  {
    ExpectConsumes(input, [QUESTION, GREATER]);
  }

  lemma {:induction false} DataReads(text: seq<Rune>, rest: seq<Unit>)
    requires Instructed(text)
    ensures InstructionDataAt(Spelt(text) + (Spelt([QUESTION, GREATER]) + rest), true) == Parsed(text, rest)
    decreases |text|
  {
    hide InstructionDataAt;
    var end := Spelt([QUESTION, GREATER]) + rest;
    var input := Spelt(text) + end;
    InstructionUnfold(input, true);
    if text == [] {
      assert input == end && end[2..] == rest;
    } else {
      assert input[0] == Char(text[0]) && input[1..] == Spelt(text[1..]) + end;
      assert input[1] == if |text| > 1 then Char(text[1]) else Char(QUESTION);
      DataReads(text[1..], rest);
      assert [text[0]] + text[1..] == text;
    }
  }

  lemma {:induction false} DataIs(input: seq<Unit>, separated: bool)
    requires InstructionDataAt(input, separated).Parsed?
    ensures var p := InstructionDataAt(input, separated);
            Instructed(p.value) && input == Spelt(p.value) + (Spelt([QUESTION, GREATER]) + p.rest)
    decreases |input|
  {
    hide InstructionDataAt;
    InstructionUnfold(input, separated);
    var p, end := InstructionDataAt(input, separated), Spelt([QUESTION, GREATER]);
    if |input| >= 2 && input[0] == Char(QUESTION) && input[1] == Char(GREATER) {
      assert input == Spelt([]) + (end + p.rest);
    } else {
      DataIs(input[1..], separated);
      var text := InstructionDataAt(input[1..], separated).value;
      assert p.value == [input[0].c] + text;
      assert input == Spelt(p.value) + (end + p.rest);
      assert text != [] ==> input[1] == Char(text[0]);
      DataLonger(input[0].c, text);
    }
  }

  lemma DataLonger(c: Rune, text: seq<Rune>)
    requires Instructed(text) && (text != [] ==> !(c == QUESTION && text[0] == GREATER))
    ensures Instructed([c] + text)
  {
  }

  /** Behind the target: white space, the data and the end. */
  function DataThen(blanks: seq<Rune>, text: seq<Rune>, rest: seq<Unit>): seq<Unit> {
    Spelt(blanks) + (Spelt(text) + (Spelt([QUESTION, GREATER]) + rest))
  }

  predicate DataFits(blanks: seq<Rune>, text: seq<Rune>) {
    Blank(blanks) && Instructed(text) && (text != [] ==> blanks != [] && !IsSpace(text[0]))
  }

  lemma DataRest(blanks: seq<Rune>, text: seq<Rune>, rest: seq<Unit>, physical: bool)
    requires DataFits(blanks, text)
    ensures InstructionRestAt(DataThen(blanks, text, rest), physical) == Parsed(EncodeAll(text), rest)
  {
    hide BlankAt;
    hide InstructionDataAt;
    hide EncodeAll;
    var end := Spelt([QUESTION, GREATER]) + rest;
    var data := Spelt(text) + end;
    assert data[0] == if text != [] then Char(text[0]) else Char(QUESTION);
    BlanksRead(blanks, data, physical);
    if text == [] {
      assert data == end && end[2..] == rest;
      InstructionUnfold(end, blanks != []);
    } else {
      DataReads(text, rest);
    }
  }

  lemma DataRestIs(input: seq<Unit>, physical: bool)
    requires InstructionRestAt(input, physical).Parsed?
    ensures var p := InstructionRestAt(input, physical);
            exists blanks, text :: DataFits(blanks, text) && input == DataThen(blanks, text, p.rest) && p.value == EncodeAll(text)
  {
    hide BlankAt;
    hide InstructionDataAt;
    hide EncodeAll;
    hide Instructed;
    var p, next := InstructionRestAt(input, physical), BlankAt(input, physical).rest;
    BlanksAre(input, physical);
    var blanks :| Blank(blanks) && input == Spelt(blanks) + next && BlankAt(input, physical).value == (blanks != []);
    DataIs(next, blanks != []);
    var text := InstructionDataAt(next, blanks != []).value;
    assert next[0] == if text != [] then Char(text[0]) else Char(QUESTION);
    if blanks == [] && text != [] {
      InstructionUnfold(next, false);
      NoData(next);
    }
    assert DataFits(blanks, text) && input == DataThen(blanks, text, p.rest);
  }

  /** Without white space there is no data. */
  lemma NoData(input: seq<Unit>)
    requires InstructionDataAt(input, false).Parsed? && input[0] == Char(QUESTION)
    ensures InstructionDataAt(input, false).value == []
  {
    InstructionUnfold(input, false);
  }

  lemma InstructionReads(name: Name, blanks: seq<Rune>, text: seq<Rune>, rest: seq<Unit>, physical: bool)
    requires IsNCName(name) && !IsXml(name) && DataFits(blanks, text)
    ensures InstructionAt(Spelt(name) + DataThen(blanks, text, rest), physical) == Parsed(Remarks(InstructionToken(name, EncodeAll(text))), rest)
  {
    hide NameAt;
    hide InstructionRestAt;
    hide IsNameStart;
    hide IsNameChar;
    hide IsNCName;
    hide IsXml;
    hide EncodeAll;
    Delimiters();
    NCNameLexical(name);
    var behind := DataThen(blanks, text, rest);
    assert behind[0] == if blanks != [] then Char(blanks[0]) else Char(QUESTION);
    NameReads(name, behind, physical);
    DataRest(blanks, text, rest, physical);
  }

  lemma InstructionIs(input: seq<Unit>, physical: bool)
    requires InstructionAt(input, physical).Parsed? && !InstructionAt(input, physical).value.Unread?
    ensures var p := InstructionAt(input, physical);
            exists name, blanks, text :: IsNCName(name) && !IsXml(name) && DataFits(blanks, text)
                                         && input == Spelt(name) + DataThen(blanks, text, p.rest)
                                         && p.value == Remarks(InstructionToken(name, EncodeAll(text)))
  {
    hide NameAt;
    hide InstructionRestAt;
    hide IsNCName;
    hide IsXml;
    hide EncodeAll;
    hide Instructed;
    var p, name := InstructionAt(input, physical), NameAt(input, physical);
    NamesAre(input, physical);
    DataRestIs(name.rest, physical);
    var blanks, text :| DataFits(blanks, text) && name.rest == DataThen(blanks, text, p.rest)
                        && InstructionRestAt(name.rest, physical).value == EncodeAll(text);
    assert input == Spelt(name.value) + DataThen(blanks, text, p.rest);
  }

  // Text

  /** The number of closing brackets at the end of some characters, two being enough. */
  function Trailing(seen: seq<Rune>): nat {
    if seen == [] || seen[|seen| - 1] != CLOSE_BRACKET then 0
    else if |seen| == 1 || seen[|seen| - 2] != CLOSE_BRACKET then 1 else 2
  }

  lemma BracketsTrail(seen: seq<Rune>, c: Rune)
    ensures Brackets(Trailing(seen), c) == Trailing(seen + [c])
  {
  }

  /** What ends a run of text that has begun. */
  predicate Stops(input: seq<Unit>) {
    input == [] || input[0] == Char(LESS) || input[0] == Char(AMPERSAND)
  }

  /** Characters of text that stand for themselves. */
  predicate PlainText(inside: bool, text: seq<Rune>) {
    forall i :: 0 <= i < |text| ==> text[i] != LESS && text[i] != AMPERSAND && (inside || IsSpace(text[i]))
  }

  /** Behind `seen`, plain characters are read one by one as long as they make no end of a section. */
  lemma {:induction false} PlainReads(place: Place, inside: bool, seen: seq<Rune>, text: seq<Rune>, rest: seq<Unit>, some: bool)
    requires PlainText(inside, text) && Sectioned(seen + text) && Stops(rest) && (text == [] ==> some || rest == [] || rest[0] == Char(LESS))
    ensures TextAt(place, inside, Spelt(text) + rest, some, Trailing(seen)) == Run(text, [rest])
    decreases |text|
  {
    hide TextAt;
    hide Trailing;
    hide Sectioned;
    var input := Spelt(text) + rest;
    TextUnfold(place, inside, input, some, Trailing(seen));
    if text == [] {
      assert input == rest;
    } else {
      var c := text[0];
      assert input[0] == Char(c) && input[1..] == Spelt(text[1..]) + rest;
      assert seen + text == (seen + [c]) + text[1..];
      BracketsTrail(seen, c);
      NoEndYet(seen, text);
      PlainReads(place, inside, seen + [c], text[1..], rest, true);
      assert [c] + text[1..] == text;
    }
  }

  lemma NoEndYet(seen: seq<Rune>, text: seq<Rune>)
    requires Sectioned(seen + text) && text != []
    ensures !(Trailing(seen) == 2 && text[0] == GREATER)
  {
    var all, n := seen + text, |seen|;
    assert n >= 2 ==> all[n - 2] == seen[n - 2] && all[n - 1] == seen[n - 1] && all[n] == text[0];
  }

  /** One token of text: a reference, if any, comes first; the end of a section does not occur. */
  predicate Chunk(inside: bool, signs: seq<Sign>) {
    && signs != [] && (forall i :: 0 <= i < |signs| ==> !signs[i].ByEntity? && (signs[i].ByReference? ==> i == 0 && inside && Forms(signs[i].form, signs[i].c)))
    && var plain := if signs[0].ByReference? then signs[1..] else signs;
       PlainText(inside, Spoken(plain, false)) && Sectioned(Spoken(plain, false))
  }

  lemma {:induction false} ItselfThen(signs: seq<Sign>, rest: seq<Unit>)
    requires forall i :: 0 <= i < |signs| ==> signs[i].Itself?
    ensures SignsThen(signs, rest) == Spelt(Spoken(signs, false)) + rest
    decreases |signs|
  {
    if signs == [] {
      assert Spelt([]) + rest == rest;
    } else {
      ItselfThen(signs[1..], rest);
      var more := Spoken(signs[1..], false);
      assert Spelt([signs[0].c] + more) + rest == [Char(signs[0].c)] + (Spelt(more) + rest);
    }
  }

  /** A character that is written as a reference and begins text. */
  lemma TextReference(place: Place, form: Form, c: Rune, behind: seq<Unit>)
    requires Forms(form, c)
    ensures TextAt(place, true, [Char(AMPERSAND)] + (Spelt(Body(form, c)) + ([Char(SEMICOLON)] + behind)), false, 0)
            == TextAt(place, true, behind, true, 0).Prepend([c])
  {
    hide TextAt;
    hide Forms;
    hide Body;
    hide ParseReference;
    var rest := Spelt(Body(form, c)) + ([Char(SEMICOLON)] + behind);
    var input := [Char(AMPERSAND)] + rest;
    assert input[1..] == rest;
    TextUnfold(place, true, input, false, 0);
    ReferenceMeans(form, c, behind, place.physical);
  }

  /** A chunk of text is one run. */
  lemma ChunkReads(place: Place, inside: bool, signs: seq<Sign>, rest: seq<Unit>)
    requires Chunk(inside, signs) && Stops(rest)
    ensures TextAt(place, inside, SignsThen(signs, rest), false, 0) == Run(Spoken(signs, false), [rest])
  {
    hide TextAt;
    hide PlainText;
    hide Sectioned;
    hide Body;
    hide Stops;
    NothingSectioned();
    if signs[0].Itself? {
      ItselfThen(signs, rest);
      assert [] + Spoken(signs, false) == Spoken(signs, false);
      PlainReads(place, inside, [], Spoken(signs, false), rest, false);
    } else {
      var sign, behind := signs[0], SignsThen(signs[1..], rest);
      var text := Spoken(signs[1..], false);
      TextReference(place, sign.form, sign.c, behind);
      ItselfThen(signs[1..], rest);
      assert [] + text == text;
      PlainReads(place, inside, [], text, rest, true);
    }
  }

  /** Plain characters that are read as a run make no end of a section. */
  lemma {:induction false} PlainIs(place: Place, inside: bool, seen: seq<Rune>, input: seq<Unit>)
    requires TextAt(place, inside, input, true, Trailing(seen)).Run? && Sectioned(seen)
    ensures var run := TextAt(place, inside, input, true, Trailing(seen));
            && |run.levels| == 1 && Stops(run.levels[0]) && input == Spelt(run.data) + run.levels[0]
            && PlainText(inside, run.data) && Sectioned(seen + run.data)
    decreases |input|
  {
    hide TextAt;
    hide Trailing;
    hide Sectioned;
    TextUnfold(place, inside, input, true, Trailing(seen));
    var run := TextAt(place, inside, input, true, Trailing(seen));
    if input == [] || input[0].c == LESS || input[0].c == AMPERSAND {
      assert input == Spelt([]) + input && seen + [] == seen;
    } else {
      var c := input[0].c;
      BracketsTrail(seen, c);
      SectionedMore(seen, c);
      PlainIs(place, inside, seen + [c], input[1..]);
      var more := TextAt(place, inside, input[1..], true, Trailing(seen + [c]));
      assert run == Run([c] + more.data, more.levels);
      assert seen + [c] + more.data == seen + ([c] + more.data);
      assert input == Spelt([c] + more.data) + run.levels[0];
    }
  }

  lemma SectionedMore(seen: seq<Rune>, c: Rune)
    requires Sectioned(seen) && !(Trailing(seen) == 2 && c == GREATER)
    ensures Sectioned(seen + [c])
  {
  }

  function Plain(text: seq<Rune>): (signs: seq<Sign>)
    ensures |signs| == |text| && forall i :: 0 <= i < |text| ==> signs[i] == Itself(text[i])
  {
    seq(|text|, i requires 0 <= i < |text| => Itself(text[i]))
  }

  lemma {:induction false} PlainSpoken(text: seq<Rune>)
    ensures Spoken(Plain(text), false) == text
    decreases |text|
  {
    if text != [] {
      PlainSpoken(text[1..]);
      assert Plain(text)[1..] == Plain(text[1..]) && [text[0]] + text[1..] == text;
    }
  }

  /** Text that is read without entering an entity is a chunk, and what is behind it ends a run. */
  lemma ChunkIs(place: Place, inside: bool, input: seq<Unit>)
    requires input != [] && input[0] != Char(LESS)
    requires TextAt(place, inside, input, false, 0).Run? && |TextAt(place, inside, input, false, 0).levels| == 1
    ensures var run := TextAt(place, inside, input, false, 0);
            exists signs :: Chunk(inside, signs) && input == SignsThen(signs, run.levels[0]) && run.data == Spoken(signs, false) && Stops(run.levels[0])
  {
    hide TextAt;
    hide Sectioned;
    hide PlainText;
    hide ParseReference;
    hide LookUp;
    hide Body;
    TextUnfold(place, inside, input, false, 0);
    var run := TextAt(place, inside, input, false, 0);
    hide Chunk;
    hide Stops;
    hide Trailing;
    var c := input[0].c;
    if c != AMPERSAND {
      NothingSectioned();
      SectionedMore([], c);
      assert [] + [c] == [c];
      BracketsTrail([], c);
      PlainIs(place, inside, [c], input[1..]);
      var more := TextAt(place, inside, input[1..], true, Trailing([c]));
      PlainLonger(inside, c, more.data);
      var signs := PlainFront(inside, [c] + more.data, run.levels[0]);
      assert input == Spelt([c] + more.data) + run.levels[0];
    } else {
      assert input == [Char(AMPERSAND)] + input[1..];
      ReferenceChunk(place, input[1..]);
    }
  }

  lemma PlainFront(inside: bool, text: seq<Rune>, rest: seq<Unit>) returns (signs: seq<Sign>)
    requires text != [] && PlainText(inside, text) && Sectioned(text)
    ensures Chunk(inside, signs) && Spoken(signs, false) == text && SignsThen(signs, rest) == Spelt(text) + rest
  {
    hide Sectioned;
    hide PlainText;
    signs := Plain(text);
    PlainSpoken(text);
    ItselfThen(signs, rest);
  }

  lemma PlainLonger(inside: bool, c: Rune, text: seq<Rune>)
    requires PlainText(inside, text) && c != LESS && c != AMPERSAND && (inside || IsSpace(c))
    ensures PlainText(inside, [c] + text)
  {
  }

  lemma NothingSectioned()
    ensures Sectioned([]) && Trailing([]) == 0
  {
  }

  /** Text that begins with a reference and stays in its input begins with a character. */
  lemma ReferenceLiteral(place: Place, rest: seq<Unit>)
    requires var run := TextAt(place, true, [Char(AMPERSAND)] + rest, false, 0); run.Run? && |run.levels| == 1
    ensures ParseReference(rest, place.physical).Literal?
  {
    hide TextAt;
    hide ParseReference;
    hide LookUp;
    hide Units;
    var input := [Char(AMPERSAND)] + rest;
    assert input[1..] == rest;
    TextUnfold(place, true, input, false, 0);
    if ParseReference(rest, place.physical).General? {
      TextLevels(place, rest);
    }
  }

  lemma ReferenceChunk(place: Place, rest: seq<Unit>)
    requires var run := TextAt(place, true, [Char(AMPERSAND)] + rest, false, 0); run.Run? && |run.levels| == 1
    ensures var run := TextAt(place, true, [Char(AMPERSAND)] + rest, false, 0);
            exists signs :: Chunk(true, signs) && [Char(AMPERSAND)] + rest == SignsThen(signs, run.levels[0])
                            && run.data == Spoken(signs, false) && Stops(run.levels[0])
  {
    hide TextAt;
    hide Sectioned;
    hide PlainText;
    hide ParseReference;
    hide Chunk;
    hide Stops;
    hide Body;
    ReferenceLiteral(place, rest);
    ReferenceIs(rest, place.physical);
    var ref := ParseReference(rest, place.physical);
    var form :| Forms(form, ref.c) && rest == Spelt(Body(form, ref.c)) + ([Char(SEMICOLON)] + ref.rest);
    TextReference(place, form, ref.c, ref.rest);
    NothingSectioned();
    PlainIs(place, true, [], ref.rest);
    var more := TextAt(place, true, ref.rest, true, 0);
    assert [] + more.data == more.data;
    var signs := ReferenceFront(form, ref.c, more.data, more.levels[0]);
  }

  /** A reference in front of plain text. */
  lemma ReferenceFront(form: Form, c: Rune, text: seq<Rune>, rest: seq<Unit>) returns (signs: seq<Sign>)
    requires Forms(form, c) && PlainText(true, text) && Sectioned(text)
    ensures Chunk(true, signs) && Spoken(signs, false) == [c] + text
    ensures SignsThen(signs, rest) == [Char(AMPERSAND)] + (Spelt(Body(form, c)) + ([Char(SEMICOLON)] + (Spelt(text) + rest)))
  {
    hide Sectioned;
    hide PlainText;
    hide Body;
    hide Forms;
    PlainSpoken(text);
    ItselfThen(Plain(text), rest);
    signs := [ByReference(form, c)] + Plain(text);
    assert signs[1..] == Plain(text);
  }

  /** Entering an entity leaves one level below. */
  lemma TextLevels(place: Place, behind: seq<Unit>)
    requires ParseReference(behind, place.physical).General?
    ensures var run := TextAt(place, true, [Char(AMPERSAND)] + behind, false, 0); run.Run? ==> |run.levels| >= 2
  {
    hide TextAt;
    hide ParseReference;
    hide LookUp;
    hide Units;
    var input := [Char(AMPERSAND)] + behind;
    assert input[1..] == behind;
    TextUnfold(place, true, input, false, 0);
  }
}
