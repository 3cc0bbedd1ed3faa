/** Attributes with their declarations: what the tag of an element has in the end, said by the
    attributes it is written with and by the rulings of its document type. */
module WrittenAttributes {
  import opened Utf8
  import opened Expansion
  import opened WrittenValues
  import opened Namespaces
  import opened Markup
  import opened WrittenMarkup

  // Values that are lists of words (XML 1.0 section 3.3.3)

  function Gap(count: nat): (gap: seq<Rune>)
    ensures |gap| == count && forall i :: 0 <= i < count ==> gap[i] == SPACE
  {
    seq(count, _ => SPACE)
  }

  /** Words with spaces in front, between and behind. */
  function Spread(words: seq<seq<Rune>>, gaps: seq<nat>): seq<Rune>
    requires |gaps| == |words| + 1
  {
    if words == [] then Gap(gaps[0])
    else Spread(words[..|words| - 1], gaps[..|words|]) + words[|words| - 1] + Gap(gaps[|words|])
  }

  /** Words without spaces, and at least one space between two of them. */
  ghost predicate Apart(words: seq<seq<Rune>>, gaps: seq<nat>) {
    && |gaps| == |words| + 1
    && (forall i :: 0 <= i < |words| ==> words[i] != [] && SPACE !in words[i])
    && (forall i :: 0 < i < |words| ==> gaps[i] > 0)
  }

  /** One space between two words and none at either end. */
  function Single(count: nat): (gaps: seq<nat>)
    ensures |gaps| == count + 1
  {
    seq(count + 1, i => if 0 < i < count then 1 else 0)
  }

  lemma {:induction false} EncodeSpaces(count: nat)
    ensures |EncodeAll(Gap(count))| == count && forall i :: 0 <= i < count ==> EncodeAll(Gap(count))[i] == 0x20
  {
    if count > 0 {
      EncodeSpaces(count - 1);
      assert Gap(count)[..count - 1] == Gap(count - 1);
    }
  }

  lemma NoSpace(c: Rune)
    requires c != SPACE
    ensures EncodeRune(c) != [] && 0x20 !in EncodeRune(c)
  {
  }

  lemma {:induction false} EncodeWord(word: seq<Rune>)
    requires SPACE !in word
    ensures 0x20 !in EncodeAll(word) && (word != [] ==> EncodeAll(word) != [])
  {
    hide EncodeRune;
    if word != [] {
      EncodeWord(word[..|word| - 1]);
      NoSpace(word[|word| - 1]);
    }
  }

  lemma {:induction false} WordsSpaces(value: seq<byte>, spaces: seq<byte>)
    requires forall i :: 0 <= i < |spaces| ==> spaces[i] == 0x20
    ensures Words(value + spaces) == Words(value)
  {
    if spaces == [] {
      assert value + spaces == value;
    } else {
      assert (value + spaces)[..|value + spaces| - 1] == value + spaces[..|spaces| - 1];
      WordsSpaces(value, spaces[..|spaces| - 1]);
    }
  }

  lemma WordsMore(value: seq<byte>, b: byte)
    requires b != 0x20
    ensures var before := Words(value);
            Words(value + [b]) ==
            if before == [] || value[|value| - 1] == 0x20 then before + [[b]]
            else before[..|before| - 1] + [before[|before| - 1] + [b]]
  {
    var all := value + [b];
    assert all[..|all| - 1] == value;
    assert |all| > 1 ==> all[|all| - 2] == value[|value| - 1];
  }

  lemma {:induction false} WordsWord(value: seq<byte>, word: seq<byte>)
    requires word != [] && 0x20 !in word && (value == [] || value[|value| - 1] == 0x20)
    ensures Words(value + word) == Words(value) + [word]
  {
    hide Words;
    var n := |word| - 1;
    var before := value + word[..n];
    EmptyWords();
    WordsMore(before, word[n]);
    assert before + [word[n]] == value + word;
    if n == 0 {
      assert before == value && word == [word[n]];
    } else {
      WordsWord(value, word[..n]);
      assert before[|before| - 1] == word[n - 1];
      assert Words(before)[..|Words(before)| - 1] == Words(value) && word[..n] + [word[n]] == word;
    }
  }

  function Encodings(words: seq<seq<Rune>>): seq<seq<byte>> {
    seq(|words|, i requires 0 <= i < |words| => EncodeAll(words[i]))
  }

  lemma ApartShorter(words: seq<seq<Rune>>, gaps: seq<nat>)
    requires Apart(words, gaps) && words != []
    ensures Apart(words[..|words| - 1], gaps[..|words|])
  {
  }

  lemma SpreadEnds(words: seq<seq<Rune>>, gaps: seq<nat>)
    requires |gaps| == |words| + 1 && gaps[|words|] > 0
    ensures var text := Spread(words, gaps); text != [] && text[|text| - 1] == SPACE
  {
  }

  lemma EncodeEnds(text: seq<Rune>)
    requires text != [] && text[|text| - 1] == SPACE
    ensures EncodeAll(text) != [] && EncodeAll(text)[|EncodeAll(text)| - 1] == 0x20
  {
  }

  lemma {:induction false} WordsSpread(words: seq<seq<Rune>>, gaps: seq<nat>)
    requires Apart(words, gaps)
    ensures Words(EncodeAll(Spread(words, gaps))) == Encodings(words)
  {
    hide EncodeAll;
    hide Words;
    var n := |words| - 1;
    EncodeSpaces(gaps[n + 1]);
    if words == [] {
      EmptyWords();
      WordsSpaces([], EncodeAll(Gap(gaps[0])));
      assert [] + EncodeAll(Gap(gaps[0])) == EncodeAll(Gap(gaps[0]));
    } else {
      var before, word := Spread(words[..n], gaps[..n + 1]), words[n];
      ApartShorter(words, gaps);
      WordsSpread(words[..n], gaps[..n + 1]);
      EncodeWord(word);
      if gaps[n] > 0 {
        SpreadEnds(words[..n], gaps[..n + 1]);
        EncodeEnds(before);
      } else {
        assert before == [];
        EncodeNothing();
      }
      WordsWord(EncodeAll(before), EncodeAll(word));
      EncodeAllConcat(before, word);
      EncodeAllConcat(before + word, Gap(gaps[n + 1]));
      WordsSpaces(EncodeAll(before + word), EncodeAll(Gap(gaps[n + 1])));
      assert Encodings(words) == Encodings(words[..n]) + [EncodeAll(word)];
    }
  }

  lemma EmptyWords()
    ensures Words([]) == []
  {
  }

  lemma {:induction false} JoinedSingle(words: seq<seq<Rune>>)
    ensures Joined(Encodings(words)) == EncodeAll(Spread(words, Single(|words|)))
  {
    hide EncodeAll;
    EncodeNothing();
    var n := |words| - 1;
    if |words| == 1 {
      assert Spread(words[..0], Single(1)[..1]) == [] && Spread(words, Single(1)) == words[0];
    } else if |words| > 1 {
      JoinedSingle(words[..n]);
      JoinedLast(Encodings(words[..n]), EncodeAll(words[n]));
      assert Encodings(words) == Encodings(words[..n]) + [EncodeAll(words[n])];
      SpreadSpace(words[..n], Single(n + 1)[..n + 1]);
      var before := Spread(words[..n], Single(n));
      EncodeAllConcat(before + [SPACE], words[n]);
      EncodeAllConcat(before, [SPACE]);
      EncodeSpaces(1);
      assert Gap(1) == [SPACE] && EncodeAll([SPACE]) == [0x20];
      assert Single(n + 1)[..n + 1][..n] + [0] == Single(n);
      assert Spread(words, Single(n + 1)) == before + [SPACE] + words[n] + Gap(0);
      assert before + [SPACE] + words[n] + Gap(0) == before + [SPACE] + words[n];
    }
  }

  /** A space behind the last word. */
  lemma SpreadSpace(words: seq<seq<Rune>>, gaps: seq<nat>)
    requires |gaps| == |words| + 1 && gaps[|words|] == 1
    ensures Spread(words, gaps) == Spread(words, gaps[..|words|] + [0]) + [SPACE]
  {
    var n := |words|;
    if words != [] {
      assert (gaps[..n] + [0])[..n] == gaps[..n];
    }
  }

  /** The value of a list of words has one space between them; any other value is left as it is. */
  lemma FinishMeans(words: seq<seq<Rune>>, gaps: seq<nat>)
    requires Apart(words, gaps)
    ensures Finish(EncodeAll(Spread(words, gaps)), true) == Spelled(Spread(words, Single(|words|)))
    ensures Finish(EncodeAll(Spread(words, gaps)), false) == Spelled(Spread(words, gaps))
  {
    hide Words;
    hide Joined;
    hide EncodeAll;
    WordsSpread(words, gaps);
    JoinedSingle(words);
  }

  /** Every text is words and spaces. */
  lemma {:induction false} TextSpreads(text: seq<Rune>) returns (words: seq<seq<Rune>>, gaps: seq<nat>)
    ensures Apart(words, gaps) && text == Spread(words, gaps)
  {
    var n := |text| - 1;
    if text == [] {
      words, gaps := [], [0];
    } else {
      var before, spaces := TextSpreads(text[..n]);
      var m := |before|;
      if text[n] == SPACE {
        words, gaps := before, spaces[..m] + [spaces[m] + 1];
        assert gaps[..m] == spaces[..m];
        assert Gap(spaces[m] + 1) == Gap(spaces[m]) + [SPACE];
      } else if before == [] || spaces[m] > 0 {
        words, gaps := before + [[text[n]]], spaces + [0];
        assert words[..m] == before && gaps[..m + 1] == spaces;
      } else {
        var word := before[m - 1] + [text[n]];
        words, gaps := before[..m - 1] + [word], spaces;
        assert words[..m - 1] == before[..m - 1];
        assert Gap(spaces[m]) == [];
      }
      assert text[..n] + [text[n]] == text;
    }
  }

  // Attributes of an element

  datatype Fallback = Without | With(signs: seq<Sign>)

  /** An attribute declared for an element: whether it is a list of words, and its value where none
      is specified. */
  datatype Ruling = Ruling(name: Label, list: bool, fallback: Fallback)

  /** A declaration in the store says what the ruling says. */
  ghost predicate Ruled(place: Place, ruling: Ruling, declaration: AttributeDeclaration) {
    && Nameable(ruling.name) && declaration.name == Joint(ruling.name) && declaration.tokenized == ruling.list
    && match ruling.fallback
       case Without => declaration.preset.NoDefault?
       case With(signs) =>
         && declaration.preset.Default? && Units(declaration.preset.raw) == SignsThen(signs, [])
         && AllAdmitted(place.store, signs, Mode(true, true, false, declaration.externalMarkup, NO_QUOTE), place.active, place.named)
  }

  ghost predicate AllRuled(place: Place, rulings: seq<Ruling>, declared: seq<AttributeDeclaration>) {
    |rulings| == |declared| && forall i :: 0 <= i < |rulings| ==> Ruled(place, rulings[i], declared[i])
  }

  predicate Lists(rulings: seq<Ruling>, name: Label) {
    exists i :: 0 <= i < |rulings| && rulings[i].name == name && rulings[i].list
  }

  predicate Names(pairs: seq<Pair>, name: Label) {
    exists i :: 0 <= i < |pairs| && pairs[i].name == name
  }

  /** An attribute whose value spells these signs. */
  function Valuing(name: Label, signs: seq<Sign>, list: bool): Attribute {
    Attribute(QNameOf(name), Finish(EncodeAll(Spoken(signs, true)), list))
  }

  function Entered(rulings: seq<Ruling>, pairs: seq<Pair>): seq<Attribute> {
    seq(|pairs|, i requires 0 <= i < |pairs| => Valuing(pairs[i].name, pairs[i].value, Lists(rulings, pairs[i].name)))
  }

  function Missing(rulings: seq<Ruling>, pairs: seq<Pair>): seq<Attribute> {
    if rulings == [] then []
    else
      var r := rulings[0];
      (if r.fallback.With? && !Names(pairs, r.name) then [Valuing(r.name, r.fallback.signs, r.list)] else []) + Missing(rulings[1..], pairs)
  }

  /** What an element has: the attributes of its tag, then those that are missing there and have a value. */
  function Applied(rulings: seq<Ruling>, pairs: seq<Pair>): seq<Attribute> {
    Entered(rulings, pairs) + Missing(rulings, pairs)
  }

  /** The rulings for each element, by its name as it is written. */
  type Rules = map<Name, seq<Ruling>>

  function RulingsOf(rules: Rules, name: Label): seq<Ruling> {
    if Joint(name) in rules then rules[Joint(name)] else []
  }

  function AttributesOf(rules: Rules, name: Label, pairs: seq<Pair>): seq<Attribute> {
    Applied(RulingsOf(rules, name), pairs)
  }

  /** The store declares for an element what the rules say. */
  ghost predicate Governed(place: Place, rules: Rules, name: Label) {
    AllRuled(place, RulingsOf(rules, name), Declarations(place.store, Joint(name)))
  }

  lemma NameApart(a: Label, b: Label)
    requires Nameable(a) && Nameable(b)
    ensures Joint(a) == Joint(b) ==> a == b
    ensures QNameOf(a) == QNameOf(b) ==> a == b
  {
    hide QualifiedName;
    JointMeans(a);
    JointMeans(b);
    SpelledApart(a.prefix, b.prefix);
    SpelledApart(a.local, b.local);
  }

  lemma DefaultReads(place: Place, ruling: Ruling, declaration: AttributeDeclaration)
    requires Ruled(place, ruling, declaration) && ruling.fallback.With?
    ensures DefaultAt(place, declaration) == Parsed(Valuing(ruling.name, ruling.fallback.signs, ruling.list).value, [])
  {
    hide AllAdmitted;
    hide Spoken;
    hide EncodeAll;
    hide Finish;
    var signs, mode := ruling.fallback.signs, Mode(true, true, false, declaration.externalMarkup, NO_QUOTE);
    SignsExpand(place.store, signs, [], mode, place.active, place.named);
    assert Spoken(signs, true) + [] == Spoken(signs, true);
  }

  lemma NamesMean(pairs: seq<Pair>, name: Label)
    requires Nameable(name) && forall i :: 0 <= i < |pairs| ==> Nameable(pairs[i].name)
    ensures QNameOf(name) in SpecifiedNames(AllSpecified(pairs)) <==> Names(pairs, name)
  {
    hide Nameable;
    hide QNameOf;
    var names := SpecifiedNames(AllSpecified(pairs));
    assert forall i :: 0 <= i < |pairs| ==> names[i] == QNameOf(pairs[i].name);
    if QNameOf(name) in names {
      var i :| 0 <= i < |pairs| && names[i] == QNameOf(name);
      NameApart(pairs[i].name, name);
    }
    if i :| 0 <= i < |pairs| && pairs[i].name == name {
      assert names[i] == QNameOf(name);
    }
  }

  lemma {:induction false} DefaultsRead(place: Place, rulings: seq<Ruling>, declared: seq<AttributeDeclaration>, pairs: seq<Pair>, input: seq<Unit>)
    requires AllRuled(place, rulings, declared) && forall i :: 0 <= i < |pairs| ==> Nameable(pairs[i].name)
    ensures DefaultsAt(place, declared, SpecifiedNames(AllSpecified(pairs)), input) == Parsed(Missing(rulings, pairs), input)
    decreases |rulings|
  {
    hide DefaultAt;
    hide QualifiedName;
    hide QNameOf;
    hide Nameable;
    hide Names;
    hide Finish;
    if rulings != [] {
      var r, d := rulings[0], declared[0];
      assert Ruled(place, r, d);
      DefaultsRead(place, rulings[1..], declared[1..], pairs, input);
      if r.fallback.With? {
        JointMeans(r.name);
        NamesMean(pairs, r.name);
        DefaultReads(place, r, d);
      }
      assert [] + Missing(rulings[1..], pairs) == Missing(rulings[1..], pairs);
    }
  }

  lemma ListsMean(place: Place, rulings: seq<Ruling>, declared: seq<AttributeDeclaration>, name: Label)
    requires AllRuled(place, rulings, declared) && Nameable(name)
    ensures DeclaredType(declared, Joint(name)) <==> Lists(rulings, name)
  {
    hide Nameable;
    hide Joint;
    hide AllAdmitted;
    assert forall i :: 0 <= i < |rulings| ==> Ruled(place, rulings[i], declared[i]);
    if i :| 0 <= i < |declared| && declared[i].name == Joint(name) && declared[i].tokenized {
      NameApart(rulings[i].name, name);
    }
    if i :| 0 <= i < |rulings| && rulings[i].name == name && rulings[i].list {
      assert declared[i].name == Joint(name) && declared[i].tokenized;
    }
  }

  /** What the store declares for an element is applied to the attributes of its tag. */
  lemma DeclaredReads(place: Place, rules: Rules, name: Label, pairs: seq<Pair>, rest: seq<Unit>)
    requires Governed(place, rules, name) && forall i :: 0 <= i < |pairs| ==> Nameable(pairs[i].name)
    ensures DeclaredAt(place, Joint(name), AllSpecified(pairs), rest) == Parsed(AttributesOf(rules, name, pairs), rest)
  {
    hide AllRuled;
    hide Lists;
    hide DeclaredType;
    hide Finish;
    hide Nameable;
    hide DefaultsAt;
    var rulings, declared := RulingsOf(rules, name), Declarations(place.store, Joint(name));
    DefaultsRead(place, rulings, declared, pairs, rest);
    var given := Given(declared, AllSpecified(pairs));
    forall i | 0 <= i < |pairs|
      ensures given[i] == Entered(rulings, pairs)[i]
    {
      ListsMean(place, rulings, declared, pairs[i].name);
    }
    assert given == Entered(rulings, pairs);
  }
}
