/** Replacement frames: the texts an entity stack is reading, byte by byte. */
module EntityFrames {
  import opened Utf8
  import opened Expansion

  datatype Context = Content | AttributeValue | Dtd

  datatype Lookahead = Nothing | Holding(c: Rune)

  /** One level of the entity stack.  `offset` counts bytes of the padded text. */
  datatype EntityFrame = EntityFrame(
    name: Name, parameter: bool, padded: bool, externalMarkup: bool, text: seq<byte>,
    context: Context, entryDepth: nat, offset: nat, lookahead: Lookahead)
  {
    /** A parameter entity is read with one space on either side. */
    function Length(): nat {
      if padded then |text| + 2 else |text|
    }

    function Remaining(): seq<Unit>
      requires offset <= Length()
    {
      RemainingAt(text, padded, offset)
    }

    ghost predicate Valid() {
      && offset <= Length()
      && (lookahead.Holding? ==> Remaining() != [] && Remaining()[0] == Char(lookahead.c))
    }

    function Moved(to: nat): EntityFrame {
      this.(offset := to, lookahead := Nothing)
    }
  }

  function RemainingAt(text: seq<byte>, padded: bool, offset: nat): seq<Unit>
    requires offset <= |text| + if padded then 2 else 0
  {
    if !padded then Units(text[offset..])
    else if offset == 0 then [Char(SPACE)] + Closed(Units(text[0..]))
    else if offset <= |text| + 1 then Closed(Units(text[offset - 1..]))
    else []
  }

  /** The closing pad is reached only if the text before it is well formed. */
  function Closed(units: seq<Unit>): seq<Unit> {
    if units != [] && units[|units| - 1].Illegal? then units else units + [Char(SPACE)]
  }

  /** What a read at the front of a frame finds. */
  function Front(f: EntityFrame): Unit
    requires f.offset < f.Length()
  {
    if f.padded && (f.offset == 0 || f.offset == f.Length() - 1) then Char(SPACE)
    else
      var d := DecodeRune(f.text[if f.padded then f.offset - 1 else f.offset..]);
      if d == Decoded(RUNE_ERROR, 1) || !IsXmlChar(d.r) then Illegal else Char(d.r)
  }

  /** Reading a character consumes exactly its encoded length and leaves the rest. */
  lemma TakeFront(f: EntityFrame)
    requires f.offset <= f.Length()
    ensures f.Remaining() == [] <==> f.offset == f.Length()
    ensures f.offset < f.Length() ==> f.Remaining()[0] == Front(f)
    ensures f.offset < f.Length() && Front(f).Char? ==>
              && 0 < RuneLen(Front(f).c) <= f.Length() - f.offset
              && IsXmlChar(Front(f).c)
              && f.Moved(f.offset + RuneLen(Front(f).c)).Remaining() == f.Remaining()[1..]
  {
    hide DecodeRune;
    hide Closed;
    hide Units;
    UnitsEnd(f.text);
    if f.padded && f.offset == 0 {
      assert f.Moved(1).Remaining() == Closed(Units(f.text[0..]));
    } else if f.offset < f.Length() {
      var at := if f.padded then f.offset - 1 else f.offset;
      TakeClosed(Units(f.text[at..]));
      if at < |f.text| {
        TakeUnits(f.text, at);
      }
    }
  }

  lemma UnitsEnd(text: seq<byte>)
    ensures Units(text[|text|..]) == []
  {
  }

  lemma TakeUnits(text: seq<byte>, at: nat)
    requires at < |text|
    ensures var d := DecodeRune(text[at..]); var u := Units(text[at..]);
            if d == Decoded(RUNE_ERROR, 1) || !IsXmlChar(d.r) then u == [Illegal]
            else
              && u != [] && u[0] == Char(d.r) && 0 < RuneLen(d.r) == d.size <= |text| - at
              && Units(text[at + d.size..]) == u[1..]
  {
    hide DecodeRune;
    var d := DecodeRune(text[at..]);
    assert text[at..][d.size..] == text[at + d.size..];
  }

  lemma TakeClosed(units: seq<Unit>)
    ensures Closed(units) != [] && Closed([]) == [Char(SPACE)]
    ensures |units| > 0 && units[0].Char? ==> Closed(units)[1..] == Closed(units[1..])
    ensures units != [] ==> Closed(units)[0] == units[0]
  {
  }

  /** A frame is read as the characters of its text, with a space on either side if it is padded. */
  lemma FrameReads(f: EntityFrame, text: seq<Rune>)
    requires f.offset == 0 && f.text == EncodeAll(text) && forall i :: 0 <= i < |text| ==> IsXmlChar(text[i])
    ensures f.Remaining() == if f.padded then Spelt([SPACE] + text + [SPACE]) else Spelt(text)
  {
    hide Units;
    hide EncodeAll;
    UnitsOfEncoding(text);
    assert f.text[0..] == f.text;
    assert Spelt([SPACE] + text + [SPACE]) == [Char(SPACE)] + (Spelt(text) + [Char(SPACE)]);
  }

  // Stacks: the last frame is the one being read.

  /** General entities being expanded; parameter entities live in their own name space. */
  function Active(frames: seq<EntityFrame>): set<Name> {
    if frames == [] then {}
    else
      var top := frames[|frames| - 1];
      Active(frames[..|frames| - 1]) + (if top.name != [] && !top.parameter then {top.name} else {})
  }

  function Named(frames: seq<EntityFrame>): nat {
    if frames == [] then 0
    else Named(frames[..|frames| - 1]) + (if frames[|frames| - 1].name != [] then 1 else 0)
  }

  lemma {:induction false} ActiveMember(frames: seq<EntityFrame>, name: Name)
    ensures name in Active(frames) <==>
            exists i :: 0 <= i < |frames| && frames[i].name == name != [] && !frames[i].parameter
  {
    if frames != [] {
      var below := frames[..|frames| - 1];
      ActiveMember(below, name);
      if i :| 0 <= i < |frames| && frames[i].name == name != [] && !frames[i].parameter {
        assert i < |below| ==> below[i] == frames[i];
      }
    }
  }

  /** No entity occurs twice on the stack: the same name and kind name the same entity. */
  ghost predicate Distinct(frames: seq<EntityFrame>) {
    forall i, j :: 0 <= i < j < |frames| && frames[i].name != [] ==>
      !(frames[i].name == frames[j].name && frames[i].parameter == frames[j].parameter)
  }

  /** What is left of the input being read. */
  function RemainingOf(frames: seq<EntityFrame>, physical: seq<Unit>): seq<Unit>
    requires frames != [] ==> frames[|frames| - 1].offset <= frames[|frames| - 1].Length()
  {
    if frames == [] then physical else frames[|frames| - 1].Remaining()
  }

  /** Only the reading position of the top frame differs. */
  ghost predicate SameStack(a: seq<EntityFrame>, b: seq<EntityFrame>) {
    && |a| == |b|
    && (a != [] ==>
          && a[..|a| - 1] == b[..|b| - 1]
          && a[|a| - 1] == b[|b| - 1].(offset := a[|a| - 1].offset, lookahead := a[|a| - 1].lookahead))
  }

  lemma SameStackNames(a: seq<EntityFrame>, b: seq<EntityFrame>)
    requires SameStack(a, b)
    ensures Active(a) == Active(b) && Named(a) == Named(b)
  {
  }

  /** The top frame after taking the character `c`, and after putting it back. */
  function Advanced(frames: seq<EntityFrame>, c: Rune): seq<EntityFrame>
    requires frames != [] && RuneLen(c) >= 0
  {
    var top := frames[|frames| - 1];
    frames[..|frames| - 1] + [top.Moved(top.offset + RuneLen(c))]
  }

  function Returned(frames: seq<EntityFrame>, c: Rune): seq<EntityFrame>
    requires frames != [] && 0 <= RuneLen(c) <= frames[|frames| - 1].offset
  {
    var top := frames[|frames| - 1];
    frames[..|frames| - 1] + [top.(offset := top.offset - RuneLen(c), lookahead := Holding(c))]
  }

  /** The last character taken can be put back. */
  ghost predicate CanReturn(frames: seq<EntityFrame>, c: Rune) {
    frames != [] ==>
      var top := frames[|frames| - 1];
      && 0 < RuneLen(c) <= top.offset <= top.Length()
      && top.Moved(top.offset - RuneLen(c)).Remaining() == [Char(c)] + top.Remaining()
  }

  lemma AdvanceFrame(f: EntityFrame, c: Rune)
    requires f.Valid() && f.Remaining() != [] && f.Remaining()[0] == Char(c)
    ensures RuneLen(c) > 0 && IsXmlChar(c)
    ensures var next := f.Moved(f.offset + RuneLen(c));
            && next.Valid() && next.Remaining() == f.Remaining()[1..]
            && next.Moved(f.offset).Remaining() == [Char(c)] + next.Remaining()
  {
    hide RemainingAt;
    hide Front;
    TakeFront(f);
    var next := f.Moved(f.offset + RuneLen(c));
    assert next.Moved(f.offset).Remaining() == f.Remaining();
  }

  lemma AdvanceStack(frames: seq<EntityFrame>, c: Rune)
    requires frames != [] && Readable(frames) && frames[|frames| - 1].Remaining() != []
    requires frames[|frames| - 1].Remaining()[0] == Char(c)
    ensures RuneLen(c) > 0 && IsXmlChar(c)
    ensures var after := Advanced(frames, c);
            && Readable(after) && SameStack(after, frames) && CanReturn(after, c)
            && RemainingOf(after, []) == RemainingOf(frames, [])[1..]
  {
    hide EntityFrame.Remaining;
    AdvanceFrame(frames[|frames| - 1], c);
  }

  lemma ReturnStack(frames: seq<EntityFrame>, c: Rune)
    requires frames != [] && Readable(frames) && CanReturn(frames, c)
    ensures var after := Returned(frames, c);
            && Readable(after) && SameStack(after, frames)
            && RemainingOf(after, []) == [Char(c)] + RemainingOf(frames, [])
  {
    hide Units;
    var top := frames[|frames| - 1];
    var back := top.(offset := top.offset - RuneLen(c), lookahead := Holding(c));
    assert back.Remaining() == top.Moved(back.offset).Remaining();
  }

  lemma SameStackReflexive(a: seq<EntityFrame>)
    ensures SameStack(a, a)
  {
  }

  lemma SameStackTransitive(a: seq<EntityFrame>, b: seq<EntityFrame>, c: seq<EntityFrame>)
    requires SameStack(a, b) && SameStack(b, c)
    ensures SameStack(a, c)
  {
  }

  // The meaning of a stack: read the top to its end, then go on below, down to the frame
  // that owns the literal.

  ghost predicate Readable(frames: seq<EntityFrame>) {
    forall i :: 0 <= i < |frames| ==> frames[i].Valid()
  }

  function ModeAt(frames: seq<EntityFrame>, owner: nat, mode: Mode): Mode {
    if |frames| <= owner then mode else Nested(mode, frames[|frames| - 1].externalMarkup)
  }

  ghost function Continue(store: Store, frames: seq<EntityFrame>, physical: seq<Unit>, owner: nat, mode: Mode,
                          value: seq<Rune>): Result
    requires Readable(frames)
    decreases |frames|
  {
    var r := Expand(store, RemainingOf(frames, physical), ModeAt(frames, owner, mode), Active(frames), Named(frames));
    if |frames| <= owner then r.Prepend(value)
    else if r.Failed? then r
    else Continue(store, frames[..|frames| - 1], physical, owner, mode, value + r.value)
  }

  ghost function StackWork(store: Store, frames: seq<EntityFrame>, physical: seq<Unit>, owner: nat, mode: Mode): nat
    requires Readable(frames)
    decreases |frames|
  {
    Work(store, RemainingOf(frames, physical), ModeAt(frames, owner, mode), Active(frames), Named(frames))
    + if |frames| <= owner then 0 else StackWork(store, frames[..|frames| - 1], physical, owner, mode)
  }

  /** Taking one data character moves it from the input to the value. */
  lemma ContinueCharacter(store: Store, before: seq<EntityFrame>, pb: seq<Unit>, after: seq<EntityFrame>, pa: seq<Unit>,
                          owner: nat, mode: Mode, value: seq<Rune>, c: Rune)
    requires Readable(before) && Readable(after) && SameStack(after, before) && |before| >= owner
    requires before != [] ==> pa == pb
    requires RemainingOf(before, pb) != [] && RemainingOf(after, pa) == RemainingOf(before, pb)[1..]
    requires RemainingOf(before, pb)[0] == Char(c) && c != LESS && c != AMPERSAND
    requires |before| == owner && mode.quote != NO_QUOTE ==> c != mode.quote
    ensures var d := if mode.normalize && IsSpace(c) then SPACE else c;
            Continue(store, after, pa, owner, mode, value + [d]) == Continue(store, before, pb, owner, mode, value)
    ensures StackWork(store, after, pa, owner, mode) < StackWork(store, before, pb, owner, mode)
  {
    hide ParseReference;
    hide LookUp;
    hide Units;
    SameStackNames(after, before);
    ContinueSame(store, before, pb, after, pa, owner, mode, value, [if mode.normalize && IsSpace(c) then SPACE else c]);
  }

  /** Appending a prefix to the value commutes with going on. */
  lemma ContinueSame(store: Store, before: seq<EntityFrame>, pb: seq<Unit>, after: seq<EntityFrame>, pa: seq<Unit>,
                     owner: nat, mode: Mode, value: seq<Rune>, more: seq<Rune>)
    requires Readable(before) && Readable(after) && SameStack(after, before) && |before| >= owner
    requires before != [] ==> pa == pb
    requires Expand(store, RemainingOf(before, pb), ModeAt(before, owner, mode), Active(before), Named(before)) ==
             Expand(store, RemainingOf(after, pa), ModeAt(before, owner, mode), Active(before), Named(before)).Prepend(more)
    ensures Continue(store, after, pa, owner, mode, value + more) == Continue(store, before, pb, owner, mode, value)
  {
    hide Expand;
    hide RemainingAt;
    hide ParseReference;
    hide LookUp;
    hide Units;
    SameStackNames(after, before);
    var r := Expand(store, RemainingOf(after, pa), ModeAt(before, owner, mode), Active(before), Named(before));
    if r.Done? {
      assert value + more + r.value == value + (more + r.value);
    }
  }

  /** Entering an entity splits the expansion into the replacement text and the rest. */
  lemma ContinuePush(store: Store, before: seq<EntityFrame>, pb: seq<Unit>, after: seq<EntityFrame>, pa: seq<Unit>,
                     frame: EntityFrame, owner: nat, mode: Mode, value: seq<Rune>)
    requires Readable(before) && Readable(after) && SameStack(after, before) && |before| >= owner
    requires before != [] ==> pa == pb
    requires frame.Valid() && !frame.parameter && frame.name != [] && frame.offset == 0 && !frame.padded
    requires RemainingOf(before, pb) != [] && RemainingOf(before, pb)[0] == Char(AMPERSAND)
    requires mode.references && mode.quote != AMPERSAND
    requires ParseReference(RemainingOf(before, pb)[1..], ModeAt(before, owner, mode).physical)
             == General(frame.name, RemainingOf(after, pa))
    requires LookUp(store, frame.name, ModeAt(before, owner, mode).external, Active(before), Named(before))
             == Found(frame.text, frame.externalMarkup)
    ensures Readable(after + [frame])
    ensures Continue(store, after + [frame], pa, owner, mode, value) == Continue(store, before, pb, owner, mode, value)
    ensures StackWork(store, after + [frame], pa, owner, mode) < StackWork(store, before, pb, owner, mode)
  {
    hide ParseReference;
    hide LookUp;
    hide Units;
    SameStackNames(after, before);
    var all := after + [frame];
    assert all[..|all| - 1] == after && all[|all| - 1] == frame;
    assert frame.text[0..] == frame.text;
    var inner := Expand(store, Units(frame.text), ModeAt(all, owner, mode), Active(all), Named(all));
    assert ModeAt(all, owner, mode) == Nested(ModeAt(before, owner, mode), frame.externalMarkup);
    if inner.Done? {
      ContinueSame(store, before, pb, after, pa, owner, mode, value, inner.value);
    }
  }

  /** A frame read to its end contributes nothing more. */
  lemma ContinueFinish(store: Store, frames: seq<EntityFrame>, physical: seq<Unit>, owner: nat, mode: Mode, value: seq<Rune>)
    requires Readable(frames) && |frames| > owner && RemainingOf(frames, physical) == []
    ensures Continue(store, frames[..|frames| - 1], physical, owner, mode, value) == Continue(store, frames, physical, owner, mode, value)
    ensures StackWork(store, frames[..|frames| - 1], physical, owner, mode) < StackWork(store, frames, physical, owner, mode)
  {
    hide ParseReference;
    hide LookUp;
    hide Units;
    assert value + [] == value;
  }

  /** Taking a run of plain characters at once is taking them one by one. */
  lemma {:induction false} ContinueSpan(store: Store, physical: seq<Unit>, span: seq<Rune>, mode: Mode, value: seq<Rune>)
    requires |span| <= |physical|
    requires forall i :: 0 <= i < |span| ==>
               && physical[i] == Char(span[i]) && span[i] != mode.quote && span[i] != LESS && span[i] != AMPERSAND
               && (mode.normalize ==> 32 <= span[i])
    ensures Continue(store, [], physical[|span|..], 0, mode, value + span) == Continue(store, [], physical, 0, mode, value)
    ensures span != [] ==> StackWork(store, [], physical[|span|..], 0, mode) < StackWork(store, [], physical, 0, mode)
  {
    hide ParseReference;
    hide LookUp;
    hide Units;
    if span == [] {
      assert physical[0..] == physical && value + span == value;
    } else {
      ContinueCharacter(store, [], physical, [], physical[1..], 0, mode, value, span[0]);
      ContinueSpan(store, physical[1..], span[1..], mode, value + [span[0]]);
      assert physical[1..][|span| - 1..] == physical[|span|..];
      assert value + [span[0]] + span[1..] == value + span;
    }
  }

  /** A character reference contributes its character raw. */
  lemma ContinueLiteral(store: Store, before: seq<EntityFrame>, pb: seq<Unit>, after: seq<EntityFrame>, pa: seq<Unit>,
                        owner: nat, mode: Mode, value: seq<Rune>, c: Rune)
    requires Readable(before) && Readable(after) && SameStack(after, before) && |before| >= owner
    requires before != [] ==> pa == pb
    requires RemainingOf(before, pb) != [] && RemainingOf(before, pb)[0] == Char(AMPERSAND)
    requires mode.references && mode.quote != AMPERSAND
    requires ParseReference(RemainingOf(before, pb)[1..], ModeAt(before, owner, mode).physical) == Literal(c, RemainingOf(after, pa))
    ensures Continue(store, after, pa, owner, mode, value + [c]) == Continue(store, before, pb, owner, mode, value)
    ensures StackWork(store, after, pa, owner, mode) < StackWork(store, before, pb, owner, mode)
  {
    hide ParseReference;
    hide LookUp;
    hide Units;
    SameStackNames(after, before);
    ContinueSame(store, before, pb, after, pa, owner, mode, value, [c]);
  }

  /** A reference that cannot be expanded fails the whole value. */
  lemma ContinueRefused(store: Store, frames: seq<EntityFrame>, physical: seq<Unit>, owner: nat, mode: Mode,
                        value: seq<Rune>, why: Failure)
    requires Readable(frames) && |frames| >= owner && mode.references && mode.quote != AMPERSAND
    requires RemainingOf(frames, physical) != [] && RemainingOf(frames, physical)[0] == Char(AMPERSAND)
    requires var here := ModeAt(frames, owner, mode);
             var r := ParseReference(RemainingOf(frames, physical)[1..], here.physical);
             || r == Broken(why)
             || (r.General? && LookUp(store, r.name, here.external, Active(frames), Named(frames)) == Refused(why))
    ensures Continue(store, frames, physical, owner, mode, value) == Failed(why)
  {
    hide ParseReference;
    hide LookUp;
    hide RemainingAt;
  }

  /** Looking ahead changes nothing. */
  lemma ContinuePeek(store: Store, before: seq<EntityFrame>, after: seq<EntityFrame>, physical: seq<Unit>,
                     owner: nat, mode: Mode, value: seq<Rune>)
    requires Readable(before) && Readable(after) && SameStack(after, before)
    requires RemainingOf(after, physical) == RemainingOf(before, physical)
    ensures Continue(store, after, physical, owner, mode, value) == Continue(store, before, physical, owner, mode, value)
    ensures StackWork(store, after, physical, owner, mode) == StackWork(store, before, physical, owner, mode)
  {
    hide RemainingAt;
    hide Expand;
    hide Work;
    SameStackNames(after, before);
  }

  /** The delimiter ends the value in the frame that owns it; elsewhere it is data. */
  lemma ContinueDelimiter(store: Store, frames: seq<EntityFrame>, physical: seq<Unit>, owner: nat, mode: Mode, value: seq<Rune>)
    requires Readable(frames) && RemainingOf(frames, physical) != [] && RemainingOf(frames, physical)[0].Char?
    ensures var c := RemainingOf(frames, physical)[0].c;
            && (|frames| == owner && mode.quote != NO_QUOTE && c == mode.quote ==>
                  Continue(store, frames, physical, owner, mode, value) == Done(value, RemainingOf(frames, physical)[1..]))
            && (|frames| >= owner && c != mode.quote && c == LESS ==>
                  Continue(store, frames, physical, owner, mode, value) == Failed(LessThan))
            && (|frames| >= owner && c != mode.quote && c == AMPERSAND && !mode.references ==>
                  Continue(store, frames, physical, owner, mode, value) == Failed(ReferencesForbidden))
  {
    hide RemainingAt;
    hide ParseReference;
    assert value + [] == value;
  }

  /** Input that ends inside a value, or stops being legible, fails it. */
  lemma ContinueEnd(store: Store, frames: seq<EntityFrame>, physical: seq<Unit>, owner: nat, mode: Mode, value: seq<Rune>)
    requires Readable(frames) && |frames| >= owner
    ensures var input := RemainingOf(frames, physical);
            && (input != [] && input[0].Illegal? ==>
                  Continue(store, frames, physical, owner, mode, value) == Failed(IllegalCharacter))
            && (input == [] && |frames| == owner ==>
                  Continue(store, frames, physical, owner, mode, value) ==
                  if mode.quote == NO_QUOTE then Done(value, []) else Failed(Truncated))
  {
    hide RemainingAt;
    assert value + [] == value;
  }

  /** The recursion check of a push: a general entity is on the stack exactly if it is active. */
  ghost predicate OnStack(frames: seq<EntityFrame>, name: Name, parameter: bool) {
    name != [] && exists i :: 0 <= i < |frames| && frames[i].name == name && frames[i].parameter == parameter
  }

  predicate InExternalMarkup(frames: seq<EntityFrame>) {
    frames != [] && frames[|frames| - 1].externalMarkup
  }

  /** A new frame that is not on the stack keeps the stack free of repetitions. */
  lemma DistinctPush(frames: seq<EntityFrame>, frame: EntityFrame)
    requires Distinct(frames) && !OnStack(frames, frame.name, frame.parameter)
    ensures Distinct(frames + [frame])
    ensures Named(frames + [frame]) == Named(frames) + (if frame.name != [] then 1 else 0)
  {
    assert (frames + [frame])[..|frames|] == frames;
  }

  /** The mode of the current level in terms of a stack read a little further. */
  lemma ModeHere(now: seq<EntityFrame>, frames: seq<EntityFrame>, owner: nat, mode: Mode)
    requires SameStack(now, frames) && |now| >= owner && mode.physical == (owner == 0)
    requires mode.external == InExternalMarkup(now[..owner])
    ensures ModeAt(frames, owner, mode).external == InExternalMarkup(now)
    ensures ModeAt(frames, owner, mode).physical == (frames == [])
    ensures |now| == |frames| && Active(now) == Active(frames) && Named(now) == Named(frames)
  {
    SameStackNames(now, frames);
    assert |now| == owner ==> now[..owner] == now;
  }

  /** Before anything is read, a stack means the expansion of its top. */
  lemma ContinueStart(store: Store, frames: seq<EntityFrame>, physical: seq<Unit>, mode: Mode)
    requires Readable(frames)
    ensures Continue(store, frames, physical, |frames|, mode, []) ==
            Expand(store, RemainingOf(frames, physical), mode, Active(frames), Named(frames))
  {
    hide RemainingAt;
    hide Expand;
    var r := Expand(store, RemainingOf(frames, physical), mode, Active(frames), Named(frames));
    assert r.Done? ==> [] + r.value == r.value;
  }

  /** A frame without a name does not take part in the recursion check. */
  lemma UnnamedPush(frames: seq<EntityFrame>, frame: EntityFrame)
    requires frame.name == [] && frame.offset == 0 && !frame.padded
    ensures Active(frames + [frame]) == Active(frames) && Named(frames + [frame]) == Named(frames)
    ensures frame.Remaining() == Units(frame.text)
  {
    assert (frames + [frame])[..|frames|] == frames;
    assert frame.text[0..] == frame.text;
  }

  // Entities that have been read

  /** The stack without the entities on its top that have been read to their end. */
  ghost function Left(frames: seq<EntityFrame>): (left: seq<EntityFrame>)
    ensures left <= frames
  {
    if frames != [] && frames[|frames| - 1].offset == frames[|frames| - 1].Length() then Left(frames[..|frames| - 1]) else frames
  }

  /** Each of them was entered in content and with `depth` elements open. */
  ghost predicate CanLeave(frames: seq<EntityFrame>, depth: nat) {
    frames != [] && frames[|frames| - 1].offset == frames[|frames| - 1].Length() ==>
      && frames[|frames| - 1].context == Content && frames[|frames| - 1].entryDepth == depth
      && CanLeave(frames[..|frames| - 1], depth)
  }

  lemma EndRemains(frame: EntityFrame)
    requires frame.Valid() && frame.offset == frame.Length()
    ensures frame.Remaining() == [] && frame.lookahead == Nothing
  {
    TakeFront(frame);
  }

  /** Leaving what has been read leaves no more to read than before, and something unless the
      document itself has been read. */
  lemma {:induction false} LeftWork(store: Store, frames: seq<EntityFrame>, physical: seq<Unit>, mode: Mode)
    requires Readable(frames)
    ensures Readable(Left(frames))
    ensures StackWork(store, Left(frames), physical, 0, mode) <= StackWork(store, frames, physical, 0, mode)
    ensures Left(frames) != [] ==> RemainingOf(Left(frames), physical) != []
    decreases |frames|
  {
    hide StackWork;
    if frames != [] {
      var top, below := frames[|frames| - 1], frames[..|frames| - 1];
      if top.offset == top.Length() {
        EndRemains(top);
        ContinueFinish(store, frames, physical, 0, mode, []);
        LeftWork(store, below, physical, mode);
      } else {
        TakeFront(top);
      }
    }
  }
}
