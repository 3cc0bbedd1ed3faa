/** How values are written: characters that stand for themselves, references to characters, and
    references to entities whose replacement text is written the same way.  What is written
    expands to what it says, and whatever expands was written so. */
module WrittenValues {
  import opened Utf8
  import opened Expansion
  import opened References

  datatype Sign = Itself(c: Rune) | ByReference(form: Form, c: Rune) | ByEntity(name: Name, inner: seq<Sign>)

  /** A sign in front of what follows it. */
  function SignThen(sign: Sign, rest: seq<Unit>): seq<Unit> {
    match sign
    case Itself(c) => [Char(c)] + rest
    case ByReference(form, c) => [Char(AMPERSAND)] + (Spelt(if Forms(form, c) then Body(form, c) else []) + ([Char(SEMICOLON)] + rest))
    case ByEntity(name, _) => [Char(AMPERSAND)] + (Spelt(name) + ([Char(SEMICOLON)] + rest))
  }

  function SignsThen(signs: seq<Sign>, rest: seq<Unit>): seq<Unit> {
    if signs == [] then rest else SignThen(signs[0], SignsThen(signs[1..], rest))
  }

  /** The characters signs stand for; white space that stands for itself may become a space. */
  function Spoken(signs: seq<Sign>, normalize: bool): seq<Rune>
    decreases signs
  {
    if signs == [] then []
    else
      (match signs[0]
       case Itself(c) => [if normalize && IsSpace(c) then SPACE else c]
       case ByReference(_, c) => [c]
       case ByEntity(_, inner) => Spoken(inner, normalize))
      + Spoken(signs[1..], normalize)
  }

  /** A sign may stand where a value is read in this mode: a character that is no delimiter, a
      reference where references are allowed, an entity that is internal, allowed under
      standalone, not open already and not too deep, whose text may be written inside it. */
  ghost predicate Admitted(store: Store, sign: Sign, mode: Mode, active: set<Name>, named: nat)
    decreases sign
  {
    match sign
    case Itself(c) => c != LESS && c != AMPERSAND && (mode.quote == NO_QUOTE || c != mode.quote)
    case ByReference(form, c) => mode.references && Forms(form, c)
    case ByEntity(name, inner) =>
      && mode.references && IsNCName(name) && (forall c :: PredefinedName(c) != name)
      && name in store.entities && store.entities[name].Internal?
      && (var entity := store.entities[name];
          && !(store.standalone && !mode.external && entity.externalMarkup)
          && name !in active && named < 64
          && Units(entity.replacement) == SignsThen(inner, [])
          && AllAdmitted(store, inner, Mode(mode.normalize, true, false, entity.externalMarkup, NO_QUOTE), active + {name}, named + 1))
  }

  ghost predicate AllAdmitted(store: Store, signs: seq<Sign>, mode: Mode, active: set<Name>, named: nat)
    decreases signs
  {
    signs != [] ==> Admitted(store, signs[0], mode, active, named) && AllAdmitted(store, signs[1..], mode, active, named)
  }

  // What is written is read

  lemma ExpandItself(store: Store, c: Rune, rest: seq<Unit>, mode: Mode, active: set<Name>, named: nat)
    requires Admitted(store, Itself(c), mode, active, named)
    ensures Expand(store, [Char(c)] + rest, mode, active, named)
            == Expand(store, rest, mode, active, named).Prepend([if mode.normalize && IsSpace(c) then SPACE else c])
  {
    hide ParseReference;
    hide LookUp;
    hide Units;
    assert ([Char(c)] + rest)[1..] == rest;
  }

  /** Behind an ampersand. */
  lemma ExpandReference(store: Store, behind: seq<Unit>, mode: Mode, active: set<Name>, named: nat)
    requires mode.references && mode.quote != AMPERSAND
    ensures var r, all := ParseReference(behind, mode.physical), Expand(store, [Char(AMPERSAND)] + behind, mode, active, named);
            && (r.Broken? ==> all == Failed(r.why))
            && (r.Literal? ==> all == Expand(store, r.rest, mode, active, named).Prepend([r.c]))
            && (r.General? ==>
                  match LookUp(store, r.name, mode.external, active, named)
                  case Refused(why) => all == Failed(why)
                  case Found(replacement, markup) =>
                    var inner := Expand(store, Units(replacement), Nested(mode, markup), active + {r.name}, named + 1);
                    all == if inner.Failed? then inner else Expand(store, r.rest, mode, active, named).Prepend(inner.value))
  {
    hide ParseReference;
    hide LookUp;
    hide Units;
    assert ([Char(AMPERSAND)] + behind)[1..] == behind;
  }

  lemma ExpandNothing(store: Store, mode: Mode, active: set<Name>, named: nat)
    requires mode.quote == NO_QUOTE
    ensures Expand(store, [], mode, active, named) == Done([], [])
  {
  }

  lemma PrependTwice(a: seq<Rune>, b: seq<Rune>, r: Result)
    ensures r.Prepend(b).Prepend(a) == r.Prepend(a + b)
    ensures r.Prepend([]) == r
  {
    if r.Done? {
      assert a + (b + r.value) == a + b + r.value && [] + r.value == r.value;
    }
  }

  /** Written signs expand to what they say, and the expansion goes on behind them. */
  lemma {:induction false} SignsExpand(store: Store, signs: seq<Sign>, rest: seq<Unit>, mode: Mode, active: set<Name>, named: nat)
    requires AllAdmitted(store, signs, mode, active, named) && mode.quote != AMPERSAND
    ensures Expand(store, SignsThen(signs, rest), mode, active, named)
            == Expand(store, rest, mode, active, named).Prepend(Spoken(signs, mode.normalize))
    decreases signs, 0
  {
    hide Expand;
    hide Units;
    var after := Expand(store, rest, mode, active, named);
    PrependTwice([], [], after);
    if signs != [] {
      var behind, more := SignsThen(signs[1..], rest), Spoken(signs[1..], mode.normalize);
      SignsExpand(store, signs[1..], rest, mode, active, named);
      match signs[0] {
        case Itself(c) =>
          ExpandItself(store, c, behind, mode, active, named);
          PrependTwice([if mode.normalize && IsSpace(c) then SPACE else c], more, after);
        case ByReference(form, c) =>
          ReferenceExpands(store, form, c, behind, mode, active, named);
          PrependTwice([c], more, after);
        case ByEntity(name, inner) =>
          EntityExpands(store, name, inner, behind, mode, active, named);
          PrependTwice(Spoken(inner, mode.normalize), more, after);
      }
    }
  }

  lemma ReferenceExpands(store: Store, form: Form, c: Rune, rest: seq<Unit>, mode: Mode, active: set<Name>, named: nat)
    requires Admitted(store, ByReference(form, c), mode, active, named) && mode.quote != AMPERSAND
    ensures Expand(store, SignThen(ByReference(form, c), rest), mode, active, named)
            == Expand(store, rest, mode, active, named).Prepend([c])
  {
    hide Expand;
    hide ParseReference;
    ReferenceMeans(form, c, rest, mode.physical);
    ExpandReference(store, Spelt(Body(form, c)) + ([Char(SEMICOLON)] + rest), mode, active, named);
  }

  lemma {:induction false} EntityExpands(store: Store, name: Name, inner: seq<Sign>, rest: seq<Unit>, mode: Mode, active: set<Name>, named: nat)
    requires Admitted(store, ByEntity(name, inner), mode, active, named) && mode.quote != AMPERSAND
    ensures Expand(store, SignThen(ByEntity(name, inner), rest), mode, active, named)
            == Expand(store, rest, mode, active, named).Prepend(Spoken(inner, mode.normalize))
    decreases inner, 1
  {
    hide Expand;
    hide ParseReference;
    hide NamedReference;
    hide Units;
    EntityParses(name, rest, mode.physical);
    ExpandReference(store, Spelt(name) + ([Char(SEMICOLON)] + rest), mode, active, named);
    var entity := store.entities[name];
    var inside := Nested(mode, entity.externalMarkup);
    SignsExpand(store, inner, [], inside, active + {name}, named + 1);
    ExpandNothing(store, inside, active + {name}, named + 1);
    assert Spoken(inner, mode.normalize) + [] == Spoken(inner, mode.normalize);
  }

  lemma EntityParses(name: Name, rest: seq<Unit>, physical: bool)
    requires IsNCName(name) && forall c :: PredefinedName(c) != name
    ensures ParseReference(Spelt(name) + ([Char(SEMICOLON)] + rest), physical) == General(name, rest)
  {
    hide NamedReference;
    NameMeans(name, rest, physical);
    assert (Spelt(name) + ([Char(SEMICOLON)] + rest))[0] == Char(name[0]);
  }

  // Whatever is read was written so

  /** The input that is left when a value is complete, its delimiter included. */
  function Tail(mode: Mode, rest: seq<Unit>): seq<Unit> {
    if mode.quote == NO_QUOTE then [] else [Char(mode.quote)] + rest
  }

  ghost predicate Writes(store: Store, signs: seq<Sign>, input: seq<Unit>, mode: Mode, active: set<Name>, named: nat, r: Result) {
    && r.Done? && AllAdmitted(store, signs, mode, active, named)
    && r.value == Spoken(signs, mode.normalize) && input == SignsThen(signs, Tail(mode, r.rest))
  }

  lemma SpokenFirst(sign: Sign, signs: seq<Sign>, normalize: bool)
    ensures Spoken([sign] + signs, normalize) == Spoken([sign], normalize) + Spoken(signs, normalize)
  {
    assert ([sign] + signs)[1..] == signs && [sign][1..] == [];
    assert Spoken([], normalize) == [];
  }

  lemma WritesOne(store: Store, sign: Sign, signs: seq<Sign>, input: seq<Unit>, rest: seq<Unit>, mode: Mode, active: set<Name>, named: nat, r: Result)
    requires Writes(store, signs, rest, mode, active, named, r) && Admitted(store, sign, mode, active, named) && input == SignThen(sign, rest)
    ensures Writes(store, [sign] + signs, input, mode, active, named, r.Prepend(Spoken([sign], mode.normalize)))
  {
    hide Admitted;
    hide SignThen;
    assert ([sign] + signs)[1..] == signs;
    SpokenFirst(sign, signs, mode.normalize);
    hide Spoken;
  }

  /** If a value expands, its input consists of admitted signs that say it, up to the delimiter. */
  lemma {:induction false} ExpandWritten(store: Store, input: seq<Unit>, mode: Mode, active: set<Name>, named: nat)
    requires Expand(store, input, mode, active, named).Done?
    ensures exists signs :: Writes(store, signs, input, mode, active, named, Expand(store, input, mode, active, named))
    decreases |store.entities.Keys - active|, |input|
  {
    hide ParseReference;
    hide LookUp;
    hide Units;
    var r := Expand(store, input, mode, active, named);
    if input == [] || (mode.quote != NO_QUOTE && input[0].c == mode.quote) {
      assert input != [] ==> input == [input[0]] + input[1..];
      assert Writes(store, [], input, mode, active, named, r);
    } else if input[0].c != AMPERSAND {
      var c := input[0].c;
      ExpandWritten(store, input[1..], mode, active, named);
      var more := Expand(store, input[1..], mode, active, named);
      var signs :| Writes(store, signs, input[1..], mode, active, named, more);
      assert Spoken([Itself(c)], mode.normalize) == [if mode.normalize && IsSpace(c) then SPACE else c];
      assert input == [input[0]] + input[1..];
      WritesOne(store, Itself(c), signs, input, input[1..], mode, active, named, more);
    } else {
      ReferenceWritten(store, input, mode, active, named);
    }
  }

  lemma {:induction false} ReferenceWritten(store: Store, input: seq<Unit>, mode: Mode, active: set<Name>, named: nat)
    requires input != [] && input[0] == Char(AMPERSAND) && mode.quote != AMPERSAND && mode.references
    requires Expand(store, input, mode, active, named).Done?
    ensures exists signs :: Writes(store, signs, input, mode, active, named, Expand(store, input, mode, active, named))
    decreases |store.entities.Keys - active|, |input|, 0
  {
    hide ParseReference;
    hide Units;
    hide Expand;
    var behind := input[1..];
    assert input == [Char(AMPERSAND)] + behind;
    ExpandReference(store, behind, mode, active, named);
    var ref := ParseReference(behind, mode.physical);
    ReferenceIs(behind, mode.physical);
    ExpandWritten(store, ref.rest, mode, active, named);
    var more := Expand(store, ref.rest, mode, active, named);
    var signs :| Writes(store, signs, ref.rest, mode, active, named, more);
    if ref.Literal? {
      var form :| Forms(form, ref.c) && behind == Spelt(Body(form, ref.c)) + ([Char(SEMICOLON)] + ref.rest);
      var sign := ByReference(form, ref.c);
      assert Spoken([sign], mode.normalize) == [ref.c];
      WritesOne(store, sign, signs, input, ref.rest, mode, active, named, more);
    } else {
      var entity := store.entities[ref.name];
      var inside := Nested(mode, entity.externalMarkup);
      Shrinks(store, active, ref.name);
      ExpandWritten(store, Units(entity.replacement), inside, active + {ref.name}, named + 1);
      var text := Expand(store, Units(entity.replacement), inside, active + {ref.name}, named + 1);
      var inner :| Writes(store, inner, Units(entity.replacement), inside, active + {ref.name}, named + 1, text);
      GeneralIsNoCharacter(behind, mode.physical);
      var sign := ByEntity(ref.name, inner);
      assert Spoken([sign], mode.normalize) == Spoken(inner, mode.normalize);
      WritesOne(store, sign, signs, input, ref.rest, mode, active, named, more);
    }
  }

  lemma GeneralIsNoCharacter(input: seq<Unit>, physical: bool)
    requires ParseReference(input, physical).General?
    ensures forall c :: PredefinedName(c) != ParseReference(input, physical).name
  {
    hide PredefinedName;
    hide PREDEFINED;
    PredefinedIs(ParseReference(input, physical).name);
    PredefinedSome();
  }
}
