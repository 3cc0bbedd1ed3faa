/** What references are: the numerals that stand for a character, the predefined names and the
    names of entities; nothing else is one (sections 4.1 and 4.6 of XML 1.0). */
module References {
  import opened Utf8
  import opened Expansion

  const LOWER_X: Rune := 0x78

  /** A digit below sixteen, letters in either case. */
  function DigitOf(d: nat, upper: bool): Rune
    requires d < 16
  {
    if d < 10 then 0x30 + d else if upper then 0x41 + (d - 10) else 0x61 + (d - 10)
  }

  function Latest(upper: seq<bool>): bool {
    upper != [] && upper[|upper| - 1]
  }

  function Earlier(upper: seq<bool>): seq<bool> {
    if upper == [] then [] else upper[..|upper| - 1]
  }

  /** The numeral of a number, by division; `upper` gives the case of its last digits. */
  function Numeral(n: nat, base: nat, upper: seq<bool>): (digits: seq<Rune>)
    requires base == 10 || base == 16
    ensures digits != []
  {
    var last := [DigitOf(n % base, Latest(upper))];
    if n < base then last else Numeral(n / base, base, Earlier(upper)) + last
  }

  function Zeros(count: nat): (digits: seq<Rune>)
    ensures |digits| == count
  {
    seq(count, i => 0x30)
  }

  lemma DigitIs(d: nat, upper: bool, base: nat)
    requires d < base && (base == 10 || base == 16)
    ensures Digit(DigitOf(d, upper), base) == d
  {
  }

  /** Reading one digit more. */
  lemma DigitsOne(d: nat, upper: bool, base: nat, value: nat, some: bool, tail: seq<Unit>)
    requires d < base && (base == 10 || base == 16)
    ensures Digits([Char(DigitOf(d, upper))] + tail, base, value, some) ==
            if value * base + d <= 0x10FFFF then Digits(tail, base, value * base + d, true) else Broken(BadReference)
  {
    DigitIs(d, upper, base);
    assert ([Char(DigitOf(d, upper))] + tail)[1..] == tail;
  }

  /** Digits accumulate to the number they were written for, unless it is out of range. */
  lemma {:induction false} NumeralReads(n: nat, base: nat, upper: seq<bool>, some: bool, tail: seq<Unit>)
    requires base == 10 || base == 16
    ensures Digits(Spelt(Numeral(n, base, upper)) + tail, base, 0, some) ==
            if n <= 0x10FFFF then Digits(tail, base, n, true) else Broken(BadReference)
    decreases n
  {
    hide Digits;
    hide DigitOf;
    var last := DigitOf(n % base, Latest(upper));
    if n < base {
      assert Spelt(Numeral(n, base, upper)) == [Char(last)];
      DigitsOne(n, Latest(upper), base, 0, some, tail);
    } else {
      var front := Numeral(n / base, base, Earlier(upper));
      assert Spelt(Numeral(n, base, upper)) + tail == Spelt(front) + ([Char(last)] + tail);
      NumeralReads(n / base, base, Earlier(upper), some, [Char(last)] + tail);
      DigitsOne(n % base, Latest(upper), base, n / base, true, tail);
    }
  }

  lemma {:induction false} ZerosRead(count: nat, base: nat, some: bool, tail: seq<Unit>)
    requires base == 10 || base == 16
    ensures Digits(Spelt(Zeros(count)) + tail, base, 0, some) == Digits(tail, base, 0, some || count > 0)
    decreases count
  {
    hide Digits;
    if count == 0 {
      assert Spelt(Zeros(0)) + tail == tail;
    } else {
      assert Spelt(Zeros(count)) + tail == [Char(DigitOf(0, false))] + (Spelt(Zeros(count - 1)) + tail);
      DigitsOne(0, false, base, 0, some, Spelt(Zeros(count - 1)) + tail);
      ZerosRead(count - 1, base, true, tail);
    }
  }

  /** What stands between the hash and the semicolon. */
  datatype Numbered = Numbered(zeros: nat, hexadecimal: bool, upper: seq<bool>) {
    function Base(): nat {
      if hexadecimal then 16 else 10
    }

    function Written(n: nat): seq<Rune> {
      (if hexadecimal then [LOWER_X] else []) + (Zeros(zeros) + Numeral(n, Base(), upper))
    }
  }

  /** A character reference stands for the character whose number it gives, in decimal or
      hexadecimal; a number that is not that of an XML character is refused. */
  lemma NumberMeans(form: Numbered, n: nat, rest: seq<Unit>)
    ensures CharacterReference(Spelt(form.Written(n)) + ([Char(SEMICOLON)] + rest)) ==
            if IsXmlChar(n) then Literal(n, rest) else Broken(BadReference)
  {
    hide Digits;
    hide Numeral;
    var base, tail := form.Base(), [Char(SEMICOLON)] + rest;
    var digits := Spelt(Numeral(n, base, form.upper)) + tail;
    var zeros := Spelt(Zeros(form.zeros)) + digits;
    var input := Spelt(form.Written(n)) + tail;
    ZerosRead(form.zeros, base, false, digits);
    NumeralReads(n, base, form.upper, form.zeros > 0, tail);
    SemicolonReads(base, n, rest);
    if form.hexadecimal {
      assert input[0] == Char(LOWER_X) && input[1..] == zeros;
    } else {
      assert input == zeros;
      NumeralStarts(n, form.upper);
      assert input[0] == if form.zeros > 0 then Char(0x30) else Char(Numeral(n, 10, form.upper)[0]);
    }
  }

  lemma SemicolonReads(base: nat, n: nat, rest: seq<Unit>)
    requires base == 10 || base == 16
    ensures Digits([Char(SEMICOLON)] + rest, base, n, true) == if IsXmlChar(n) then Literal(n, rest) else Broken(BadReference)
  {
    assert ([Char(SEMICOLON)] + rest)[1..] == rest;
  }

  lemma {:induction false} NumeralStarts(n: nat, upper: seq<bool>)
    ensures 0x30 <= Numeral(n, 10, upper)[0] <= 0x39
    decreases n
  {
    if n >= 10 {
      NumeralStarts(n / 10, Earlier(upper));
    }
  }

  // Nothing else is a character reference

  lemma DigitBack(c: Rune, base: nat)
    requires (base == 10 || base == 16) && Digit(c, base) >= 0
    ensures Digit(c, base) < base
    ensures exists upper: bool :: DigitOf(Digit(c, base), upper) == c
  {
    assert DigitOf(Digit(c, base), false) == c || DigitOf(Digit(c, base), true) == c;
  }

  ghost predicate IsNumeral(digits: seq<Rune>, base: nat, n: nat)
    requires base == 10 || base == 16
  {
    exists zeros: nat, upper: seq<bool> :: digits == Zeros(zeros) + Numeral(n, base, upper)
  }

  /** A digit behind a numeral makes the numeral of a larger number. */
  lemma NumeralLonger(digits: seq<Rune>, base: nat, n: nat, c: Rune)
    requires (base == 10 || base == 16) && IsNumeral(digits, base, n) && Digit(c, base) >= 0
    ensures IsNumeral(digits + [c], base, n * base + Digit(c, base))
  {
    hide Digit;
    DigitBack(c, base);
    var d := Digit(c, base);
    var up :| DigitOf(d, up) == c;
    hide DigitOf;
    var zeros: nat, upper: seq<bool> :| digits == Zeros(zeros) + Numeral(n, base, upper);
    var m := n * base + d;
    DividesBack(n, base, d);
    if n > 0 {
      var longer := upper + [up];
      assert Earlier(longer) == upper && Latest(longer) == up;
      assert Numeral(m, base, longer) == Numeral(n, base, upper) + [c];
      assert digits + [c] == Zeros(zeros) + Numeral(m, base, longer);
    } else {
      ZeroNumeral(base, upper);
      assert Numeral(m, base, [up]) == [c];
      assert digits + [c] == Zeros(zeros + 1) + Numeral(m, base, [up]);
    }
  }

  lemma DividesBack(n: nat, base: nat, d: nat)
    requires d < base && (base == 10 || base == 16)
    ensures (n * base + d) / base == n && (n * base + d) % base == d
  {
  }

  lemma ZeroNumeral(base: nat, upper: seq<bool>)
    requires base == 10 || base == 16
    ensures Numeral(0, base, upper) == [0x30]
  {
  }

  lemma DigitNumeral(base: nat, c: Rune)
    requires (base == 10 || base == 16) && Digit(c, base) >= 0
    ensures IsNumeral([c], base, Digit(c, base))
  {
    DigitBack(c, base);
    var d := Digit(c, base);
    var up :| DigitOf(d, up) == c;
    assert [c] == Zeros(0) + Numeral(d, base, [up]);
  }

  /** The input is the rest of a numeral, a semicolon and what is behind it. */
  ghost predicate Completes(input: seq<Unit>, done: seq<Rune>, more: seq<Rune>, base: nat, n: nat, rest: seq<Unit>)
    requires base == 10 || base == 16
  {
    IsNumeral(done + more, base, n) && input == Spelt(more) + ([Char(SEMICOLON)] + rest)
  }

  lemma SpeltFirst(c: Rune, more: seq<Rune>, rest: seq<Unit>)
    ensures [Char(c)] + (Spelt(more) + rest) == Spelt([c] + more) + rest
  {
  }

  /** Digits that end in a character are the rest of its numeral and a semicolon. */
  lemma {:induction false} DigitsAre(input: seq<Unit>, base: nat, value: nat, done: seq<Rune>)
    requires base == 10 || base == 16
    requires if done == [] then value == 0 else IsNumeral(done, base, value)
    requires Digits(input, base, value, done != []).Literal?
    ensures var r := Digits(input, base, value, done != []);
            IsXmlChar(r.c) && exists more :: Completes(input, done, more, base, r.c, r.rest)
    decreases |input|
  {
    hide IsNumeral;
    hide Digit;
    var r := Digits(input, base, value, done != []);
    var c := input[0].c;
    assert r.c >= 0;
    hide IsXmlChar;
    if Digit(c, base) >= 0 {
      if done == [] {
        DigitNumeral(base, c);
        assert done + [c] == [c];
      } else {
        NumeralLonger(done, base, value, c);
      }
      DigitsAre(input[1..], base, value * base + Digit(c, base), done + [c]);
      var more :| Completes(input[1..], done + [c], more, base, r.c, r.rest);
      assert done + [c] + more == done + ([c] + more);
      SpeltFirst(c, more, [Char(SEMICOLON)] + r.rest);
      assert input == [Char(c)] + input[1..];
      assert Completes(input, done, [c] + more, base, r.c, r.rest);
    } else {
      assert done + [] == done && input == Spelt([]) + ([Char(SEMICOLON)] + r.rest);
      assert Completes(input, done, [], base, r.c, r.rest);
    }
  }

  /** Only numerals of XML characters with a semicolon behind them are character references. */
  lemma NumberIs(input: seq<Unit>)
    requires CharacterReference(input).Literal?
    ensures var r := CharacterReference(input);
            exists form: Numbered :: input == Spelt(form.Written(r.c)) + ([Char(SEMICOLON)] + r.rest) && IsXmlChar(r.c)
  {
    hide Digits;
    hide Numeral;
    var r := CharacterReference(input);
    var hexadecimal := input != [] && input[0] == Char(LOWER_X);
    var base := if hexadecimal then 16 else 10;
    DigitsAre(if hexadecimal then input[1..] else input, base, 0, []);
    var more :| Completes(if hexadecimal then input[1..] else input, [], more, base, r.c, r.rest);
    assert [] + more == more;
    NumberForm(if hexadecimal then input[1..] else input, more, hexadecimal, r.c, r.rest);
    if hexadecimal {
      assert input == [Char(LOWER_X)] + input[1..];
    }
  }

  lemma NumberForm(input: seq<Unit>, more: seq<Rune>, hexadecimal: bool, n: nat, rest: seq<Unit>)
    requires IsNumeral(more, if hexadecimal then 16 else 10, n) && input == Spelt(more) + ([Char(SEMICOLON)] + rest)
    ensures exists form: Numbered ::
              (if hexadecimal then [Char(LOWER_X)] else []) + input == Spelt(form.Written(n)) + ([Char(SEMICOLON)] + rest)
  {
    hide Numeral;
    var base := if hexadecimal then 16 else 10;
    var zeros: nat, upper: seq<bool> :| more == Zeros(zeros) + Numeral(n, base, upper);
    var form := Numbered(zeros, hexadecimal, upper);
    var front := if hexadecimal then [LOWER_X] else [];
    assert Spelt(form.Written(n)) == Spelt(front) + Spelt(more);
    assert (if hexadecimal then [Char(LOWER_X)] else []) == Spelt(front);
    assert Spelt(front) + input == (Spelt(front) + Spelt(more)) + ([Char(SEMICOLON)] + rest);
  }

  // Named references

  /** The name at the front of an input ends where the first other character stands. */
  lemma NameEnds(name: Name, rest: seq<Unit>)
    requires forall i :: 0 <= i < |name| ==> IsNameChar(name[i])
    requires rest != [] && rest[0].Char? && !IsNameChar(rest[0].c)
    ensures var input := Spelt(name) + rest;
            NameLength(input) == |name| && Runes(input[..|name|]) == name && input[|name|..] == rest
  {
    hide IsNameChar;
    var input := Spelt(name) + rest;
    var n := NameLength(input);
    assert input[|name|] == rest[0];
    assert n < |name| ==> input[n] == Char(name[n]);
    assert input[..|name|] == Spelt(name);
    assert Runes(Spelt(name)) == name;
  }

  /** The characters that have a name of their own. */
  function PredefinedName(c: Rune): Name {
    if c == 0x26 then [0x61, 0x6D, 0x70]               // amp
    else if c == 0x3C then [0x6C, 0x74]                // lt
    else if c == 0x3E then [0x67, 0x74]                // gt
    else if c == 0x22 then [0x71, 0x75, 0x6F, 0x74]    // quot
    else if c == 0x27 then [0x61, 0x70, 0x6F, 0x73]    // apos
    else []
  }

  lemma PredefinedIs(name: Name)
    ensures name in PREDEFINED <==> exists c :: name == PredefinedName(c) && name != []
    ensures forall c :: PredefinedName(c) != [] ==> PredefinedName(c) in PREDEFINED && PREDEFINED[PredefinedName(c)] == c
    ensures name in PREDEFINED ==> PredefinedName(PREDEFINED[name]) == name
  {
    if name in PREDEFINED {
      assert PredefinedName(PREDEFINED[name]) == name;
    }
  }

  lemma PredefinedNameable(c: Rune)
    requires PredefinedName(c) != []
    ensures IsNCName(PredefinedName(c))
  {
  }

  lemma SemicolonEnds()
    ensures !IsNameChar(SEMICOLON)
  {
  }

  /** A name with a semicolon behind it stands for the character it is the name of, or else for
      the entity of that name. */
  lemma NameMeans(name: Name, rest: seq<Unit>, physical: bool)
    requires IsNCName(name)
    ensures var r := NamedReference(Spelt(name) + ([Char(SEMICOLON)] + rest), physical);
            && (forall c :: name == PredefinedName(c) ==> r == Literal(c, rest))
            && ((forall c :: name != PredefinedName(c)) ==> r == General(name, rest))
  {
    hide IsNameStart;
    hide PREDEFINED;
    hide PredefinedName;
    PredefinedIs(name);
    SemicolonEnds();
    NameEnds(name, [Char(SEMICOLON)] + rest);
    var input := Spelt(name) + ([Char(SEMICOLON)] + rest);
    assert input[0] == Char(name[0]) && input[|name|] == Char(SEMICOLON);
    assert input[|name| + 1..] == input[|name|..][1..] == rest;
  }

  /** Only a name with a semicolon behind it is a named reference. */
  lemma NameIs(input: seq<Unit>, physical: bool)
    requires !NamedReference(input, physical).Broken?
    ensures var r := NamedReference(input, physical);
            exists name :: IsNCName(name) && input == Spelt(name) + ([Char(SEMICOLON)] + r.rest)
                           && if r.Literal? then name == PredefinedName(r.c) else name == r.name
  {
    hide PREDEFINED;
    hide PredefinedName;
    hide IsNCName;
    hide IsNameStart;
    var n := NameLength(input);
    var name, r := Runes(input[..n]), NamedReference(input, physical);
    PredefinedIs(name);
    assert Spelt(name) == input[..n] && input[n] == Char(SEMICOLON);
    assert input == input[..n] + ([input[n]] + input[n + 1..]);
  }

  // Both together

  /** What can stand between ampersand and semicolon for a character. */
  datatype Form = ByName | ByNumber(number: Numbered)

  predicate Forms(form: Form, c: Rune) {
    IsXmlChar(c) && (form.ByName? ==> PredefinedName(c) != [])
  }

  function Body(form: Form, c: Rune): seq<Rune>
    requires Forms(form, c)
  {
    match form
    case ByName => PredefinedName(c)
    case ByNumber(number) => [HASH] + number.Written(c)
  }

  /** A reference to a character is read as that character wherever it stands. */
  lemma ReferenceMeans(form: Form, c: Rune, rest: seq<Unit>, physical: bool)
    requires Forms(form, c)
    ensures ParseReference(Spelt(Body(form, c)) + ([Char(SEMICOLON)] + rest), physical) == Literal(c, rest)
  {
    hide NamedReference;
    hide CharacterReference;
    hide IsNCName;
    hide Numeral;
    var tail := [Char(SEMICOLON)] + rest;
    var input := Spelt(Body(form, c)) + tail;
    match form {
      case ByName =>
        PredefinedNameable(c);
        NameMeans(PredefinedName(c), rest, physical);
        assert input[0] == Char(PredefinedName(c)[0]);
      case ByNumber(number) =>
        NumberMeans(number, c, rest);
        assert input[0] == Char(HASH) && input[1..] == Spelt(number.Written(c)) + tail;
    }
  }

  /** What is read as a character is a reference to it, and what is read as an entity is its name. */
  lemma ReferenceIs(input: seq<Unit>, physical: bool)
    ensures var r := ParseReference(input, physical);
            && (r.Literal? ==> exists form :: Forms(form, r.c) && input == Spelt(Body(form, r.c)) + ([Char(SEMICOLON)] + r.rest))
            && (r.General? ==> IsNCName(r.name) && input == Spelt(r.name) + ([Char(SEMICOLON)] + r.rest))
  {
    hide NamedReference;
    hide CharacterReference;
    hide IsNCName;
    hide Numeral;
    hide PredefinedName;
    var r := ParseReference(input, physical);
    if r.Broken? {
      return;
    }
    if input[0].c == HASH {
      NumberIs(input[1..]);
      var number: Numbered :| input[1..] == Spelt(number.Written(r.c)) + ([Char(SEMICOLON)] + r.rest) && IsXmlChar(r.c);
      assert Spelt([HASH] + number.Written(r.c)) == [Char(HASH)] + Spelt(number.Written(r.c));
      assert input == [input[0]] + input[1..] && Forms(ByNumber(number), r.c);
      assert input == Spelt(Body(ByNumber(number), r.c)) + ([Char(SEMICOLON)] + r.rest);
    } else {
      NameIs(input, physical);
      if r.Literal? {
        PredefinedSome();
        assert Forms(ByName, r.c);
        assert input == Spelt(Body(ByName, r.c)) + ([Char(SEMICOLON)] + r.rest);
      }
    }
  }

  lemma PredefinedSome()
    ensures !IsNCName([])
  {
  }
}
