/** The fact observer's own namespace table: a map of live bindings whose undo records say
    whether a prefix was there at all. */
module SourceObservers {
  import opened Accounts
  import opened Namespaces
  import opened TokenReaders
  import EntityFrames

  const FIXED: nat := 256
  const MAX_BINDINGS: nat := 65536
  const MAX_PREFIX: nat := 1024
  const MAX_URI: nat := 4096

  type Bindings = map<string, string>

  datatype UndoRecord = UndoRecord(prefix: string, previous: string, existed: bool)

  datatype ObserverFrame = ObserverFrame(id: nat, undo: seq<UndoRecord>, retained: nat)

  /** What the sink is told about an element. */
  datatype Header = Header(id: nat, parent: nat, bindings: Bindings)

  /** All live bindings of the open scopes, innermost first. */
  function Flatten(scopes: seq<Scope>): Bindings {
    if scopes == [] then map["xml" := XML_URI] else Flatten(scopes[..|scopes| - 1]) + scopes[|scopes| - 1]
  }

  /** Accepted tags bind the prefix xml only to its own name. */
  ghost predicate XmlFixed(scopes: seq<Scope>) {
    forall i :: 0 <= i < |scopes| && "xml" in scopes[i] ==> scopes[i]["xml"] == XML_URI
  }

  lemma {:induction false} FlattenMeaning(scopes: seq<Scope>, prefix: string)
    requires XmlFixed(scopes)
    ensures (if prefix in Flatten(scopes) then Bound(Flatten(scopes)[prefix]) else Unbound) == Meaning(scopes, prefix)
  {
    if scopes != [] {
      var outer := scopes[..|scopes| - 1];
      assert forall i :: 0 <= i < |outer| ==> outer[i] == scopes[i];
      FlattenMeaning(outer, prefix);
    }
  }

  lemma {:induction false} DeclaredXml(attributes: seq<Attribute>)
    requires DeclarationsAllowed(attributes)
    ensures "xml" in Declared(attributes) ==> Declared(attributes)["xml"] == XML_URI
  {
    if attributes != [] {
      var before := attributes[..|attributes| - 1];
      assert forall i :: 0 <= i < |before| ==> before[i] == attributes[i];
      DeclaredXml(before);
    }
  }

  lemma XmlStaysFixed(scopes: seq<Scope>, attributes: seq<Attribute>)
    requires XmlFixed(scopes) && DeclarationsAllowed(attributes)
    ensures XmlFixed(scopes + [Declared(attributes)])
  {
    hide Declared;
    DeclaredXml(attributes);
  }

  // The undo records

  function Undone(bindings: Bindings, undo: seq<UndoRecord>): Bindings
    decreases |undo|
  {
    if undo == [] then bindings
    else
      var last := undo[|undo| - 1];
      Undone(if last.existed then bindings[last.prefix := last.previous] else bindings - {last.prefix}, undo[..|undo| - 1])
  }

  function Remember(bindings: Bindings, prefix: string): UndoRecord {
    if prefix in bindings then UndoRecord(prefix, bindings[prefix], true) else UndoRecord(prefix, "", false)
  }

  /** A recorded change is taken back exactly. */
  lemma UndoneRecord(bindings: Bindings, undo: seq<UndoRecord>, prefix: string, uri: string)
    ensures Undone(bindings[prefix := uri], undo + [Remember(bindings, prefix)]) == Undone(bindings, undo)
  {
    var record := Remember(bindings, prefix);
    assert (undo + [record])[..|undo|] == undo;
    var changed := bindings[prefix := uri];
    assert (if record.existed then changed[prefix := record.previous] else changed - {prefix}) == bindings;
  }

  /** Each frame's records lead from its own scopes to those around it. */
  ghost predicate Reversible(stack: seq<ObserverFrame>, scopes: seq<Scope>) {
    && |stack| == |scopes|
    && forall i :: 0 <= i < |stack| ==> LeadsOut(stack[i], scopes, i)
  }

  ghost predicate LeadsOut(frame: ObserverFrame, scopes: seq<Scope>, i: nat)
    requires i < |scopes|
  {
    Undone(Flatten(scopes[..i + 1]), frame.undo) == Flatten(scopes[..i])
  }

  lemma ReversibleOpen(stack: seq<ObserverFrame>, scopes: seq<Scope>, frame: ObserverFrame, scope: Scope)
    requires Reversible(stack, scopes)
    requires Undone(Flatten(scopes) + scope, frame.undo) == Flatten(scopes)
    ensures Reversible(stack + [frame], scopes + [scope]) && Flatten(scopes + [scope]) == Flatten(scopes) + scope
  {
    hide Undone;
    var inner := scopes + [scope];
    assert inner[..|scopes|] == scopes && inner[..|inner|] == inner;
    forall i | 0 <= i < |stack|
      ensures LeadsOut(stack[i], inner, i)
    {
      assert LeadsOut(stack[i], scopes, i);
      assert inner[..i] == scopes[..i] && inner[..i + 1] == scopes[..i + 1];
    }
  }

  lemma ReversiblePop(stack: seq<ObserverFrame>, scopes: seq<Scope>)
    requires Reversible(stack, scopes) && stack != []
    ensures Reversible(stack[..|stack| - 1], scopes[..|scopes| - 1])
    ensures Undone(Flatten(scopes), stack[|stack| - 1].undo) == Flatten(scopes[..|scopes| - 1])
  {
    hide Undone;
    hide Flatten;
    var n := |stack| - 1;
    var outer := scopes[..n];
    assert LeadsOut(stack[n], scopes, n) && scopes[..n + 1] == scopes;
    forall i | 0 <= i < n
      ensures LeadsOut(stack[i], outer, i)
    {
      assert LeadsOut(stack[i], scopes, i);
      assert outer[..i] == scopes[..i] && outer[..i + 1] == scopes[..i + 1];
    }
  }

  lemma FlattenStep(scopes: seq<Scope>, attributes: seq<Attribute>, i: nat)
    requires i < |attributes|
    ensures Flatten(scopes) + Declared(attributes[..i + 1]) ==
            if IsDeclaration(attributes[i])
            then (Flatten(scopes) + Declared(attributes[..i]))[DeclaredPrefix(attributes[i]) := attributes[i].value]
            else Flatten(scopes) + Declared(attributes[..i])
  {
    DeclaredStep(attributes, i);
  }

  function SumFrames(stack: seq<ObserverFrame>): nat {
    if stack == [] then 0 else SumFrames(stack[..|stack| - 1]) + stack[|stack| - 1].retained
  }

  lemma SumFramesPush(stack: seq<ObserverFrame>, frame: ObserverFrame)
    ensures SumFrames(stack + [frame]) == SumFrames(stack) + frame.retained
  {
    assert (stack + [frame])[..|stack|] == stack;
  }

  class SourceObserver {
    const account: Account
    var stack: seq<ObserverFrame>
    var bindings: Bindings
    var next: nat
    var retained: nat
    var failed: bool
    var headers: seq<Header>          // what the sink has been told
    ghost var scopes: seq<Scope>

    ghost function Others(): int
      reads this, account
    {
      account.usage.buffered - retained
    }

    ghost predicate Valid()
      reads this, account
    {
      && Others() >= 0 && SumFrames(stack) <= retained
      && (!failed ==> Reversible(stack, scopes) && bindings == Flatten(scopes) && XmlFixed(scopes))
    }

    constructor (account: Account)
      requires account.ample || account.usage.buffered + FIXED <= account.limits.buffered
      modifies account
      ensures Valid() && !failed && this.account == account && scopes == [] && headers == [] && stack == []
      ensures Others() == old(account.usage.buffered)
    {
      this.account, stack, bindings := account, [], map["xml" := XML_URI];
      next, retained, failed, headers, scopes := 0, FIXED, false, [], [];
      new;
      var _ := account.Charge(Buffered, FIXED);
    }

    method Retain(size: nat) returns (ok: bool)
      requires Others() >= 0
      modifies this`retained, account
      ensures Others() == old(Others()) && retained == (if ok then old(retained) + size else old(retained))
      ensures account.ample ==> ok
    {
      ok := account.Charge(Buffered, size);
      if ok {
        retained := retained + size;
      }
    }

    /** Takes the declarations of a tag into the table, remembering what each one replaces. */
    method Bind(attributes: seq<Attribute>, ghost outer: seq<Scope>) returns (ok: bool, undo: seq<UndoRecord>, held: nat)
      requires Others() >= 0 && bindings == Flatten(outer)
      modifies this`bindings, this`retained, account
      ensures Others() == old(Others()) && retained >= old(retained) + held
      ensures ok ==> bindings == Flatten(outer) + Declared(attributes) && Undone(bindings, undo) == Flatten(outer)
    {
      hide Undone;
      hide Flatten;
      hide Declared;
      hide Remember;
      undo, held := [], 0;
      UndoneNothing(bindings);
      for i := 0 to |attributes|
        invariant Others() == old(Others()) && retained >= old(retained) + held
        invariant bindings == Flatten(outer) + Declared(attributes[..i])
        invariant Undone(bindings, undo) == Flatten(outer)
      {
        FlattenStep(outer, attributes, i);
        if IsDeclaration(attributes[i]) {
          var prefix, uri := DeclaredPrefix(attributes[i]), attributes[i].value;
          UndoneRecord(bindings, undo, prefix, uri);
          var charged := BindOne(prefix, uri);
          if !charged {
            return false, undo, held;
          }
          undo, held := undo + [Remember(bindings, prefix)], held + 80 + |prefix| + |uri|;
          bindings := bindings[prefix := uri];
        }
      }
      assert attributes[..|attributes|] == attributes;
      return true, undo, held;
    }

    method BindOne(prefix: string, uri: string) returns (ok: bool)
      requires Others() >= 0
      modifies this`retained, account
      ensures Others() == old(Others()) && retained >= old(retained)
      ensures ok ==> retained >= old(retained) + 80 + |prefix| + |uri|
    {
      if |prefix| > MAX_PREFIX || |uri| > MAX_URI {
        return false;
      }
      ok := Retain(80 + |prefix| + |uri|);
      if ok && prefix !in bindings {
        if |bindings| >= MAX_BINDINGS {
          return false;
        }
        ok := Retain(128);
      }
    }

    /** An element the reader has accepted.  The sink gets the bindings that are in force in it. */
    method Open(attributes: seq<Attribute>, frameBytes: nat) returns (ok: bool)
      requires Valid() && !failed && DeclarationsAllowed(attributes)
      modifies this, account
      ensures Valid() && Others() == old(Others()) && ok == !failed
      ensures ok ==> scopes == old(scopes) + [Declared(attributes)]
      ensures ok ==> headers == old(headers) + [Header(next, old(Parent()), Flatten(scopes))] && next == old(next) + 1
      ensures ok ==> |stack| == |old(stack)| + 1 && stack[..|old(stack)|] == old(stack) && Parent() == next
      ensures !ok ==> headers == old(headers)
    {
      hide Flatten;
      hide Undone;
      hide Declared;
      hide SumFrames;
      hide DeclarationsAllowed;
      hide Reversible;
      hide XmlFixed;
      ghost var inner := scopes + [Declared(attributes)];
      var parent := Parent();
      var charged := Retain(frameBytes);
      if !charged {
        failed := true;
        return false;
      }
      var bound, undo, held := Bind(attributes, scopes);
      var admitted := account.Admit();
      if !bound || !admitted || |bindings| > MAX_BINDINGS {
        failed := true;
        return false;
      }
      next := next + 1;
      var frame := ObserverFrame(next, undo, frameBytes + held);
      ReversibleOpen(stack, scopes, frame, Declared(attributes));
      XmlStaysFixed(scopes, attributes);
      SumFramesPush(stack, frame);
      headers := headers + [Header(next, parent, bindings)];
      stack, scopes := stack + [frame], inner;
      return true;
    }

    /** The innermost open element, or 0. */
    function Parent(): nat
      reads this
    {
      if stack == [] then 0 else stack[|stack| - 1].id
    }

    method Pop()
      requires Valid() && !failed && stack != []
      modifies this`bindings, this`stack, this`retained, this`scopes, account
      ensures Valid() && Others() == old(Others())
      ensures stack == old(stack)[..|old(stack)| - 1] && scopes == old(scopes)[..|old(scopes)| - 1]
    {
      hide Flatten;
      hide Undone;
      hide Reversible;
      var frame := stack[|stack| - 1];
      ReversiblePop(stack, scopes);
      assert |stack| == |scopes| by {
        ReversibleLength(stack, scopes);
      }
      TakeBack(frame.undo);
      var _ := account.Release(frame.retained);
      retained := retained - frame.retained;
      stack, scopes := stack[..|stack| - 1], scopes[..|scopes| - 1];
    }

    method TakeBack(undo: seq<UndoRecord>)
      modifies this`bindings
      ensures bindings == Undone(old(bindings), undo)
    {
      assert undo[..|undo|] == undo;
      var i := |undo|;
      while i > 0
        invariant 0 <= i <= |undo| && Undone(bindings, undo[..i]) == Undone(old(bindings), undo)
      {
        i := i - 1;
        var record := undo[i];
        assert undo[..i + 1][..i] == undo[..i];
        if record.existed {
          bindings := bindings[record.prefix := record.previous];
        } else {
          bindings := bindings - {record.prefix};
        }
      }
    }

    method Close()
      requires Valid()
      modifies this, account
      ensures account.usage.buffered == old(Others()) && retained == 0
    {
      var _ := account.Release(retained);
      retained, stack, bindings := 0, [], map[];
    }
  }

  lemma UndoneNothing(bindings: Bindings)
    ensures Undone(bindings, []) == bindings && Declared([]) == map[] && bindings + map[] == bindings
  {
  }

  lemma ReversibleLength(stack: seq<ObserverFrame>, scopes: seq<Scope>)
    requires Reversible(stack, scopes)
    ensures |stack| == |scopes|
  {
  }

  // The two tables

  /** After the same accepted tags the reader and the observer give every prefix the same
      meaning. */
  lemma TablesAgree(reader: TokenReader, observer: SourceObserver, prefix: string)
    requires reader.Valid() && !reader.failed && !reader.closed
    requires observer.Valid() && !observer.failed
    requires reader.scopes == observer.scopes
    ensures reader.Lookup(prefix) == Meaning(reader.scopes, prefix)
    ensures reader.Lookup(prefix) ==
            if prefix in observer.bindings then Bound(observer.bindings[prefix]) else Unbound
  {
    reader.LookupIsInnermost(prefix);
    FlattenMeaning(observer.scopes, prefix);
  }

  /** Both charge the same account, and neither counts the other's bytes as its own. */
  ghost predicate Apart(reader: TokenReader, observer: SourceObserver)
    reads reader, observer, reader.account
  {
    reader.account == observer.account && reader.account.usage.buffered >= reader.Owned() + observer.retained
  }

  datatype Tag = Opening(name: QName, attributes: seq<Attribute>) | Closing(name: QName)

  /** Any sequence of tags: as long as both accept, both stand in the scopes of the open
      elements. */
  method Lockstep(reader: TokenReader, observer: SourceObserver, tags: seq<Tag>) returns (done: nat)
    requires reader.Valid() && !reader.failed && !reader.closed && !reader.needEnd
    requires observer.Valid() && !observer.failed
    requires reader.scopes == observer.scopes && Apart(reader, observer)
    modifies reader, reader.account, observer
    ensures done <= |tags|
    ensures done == |tags| ==> reader.Valid() && !reader.failed && !reader.closed && observer.Valid() && !observer.failed
    ensures done == |tags| ==> reader.scopes == observer.scopes == Scopes(old(reader.scopes), tags)
  {
    done := 0;
    assert tags[..0] == [];
    while done < |tags|
      invariant done <= |tags|
      invariant reader.Valid() && !reader.failed && !reader.closed && !reader.needEnd
      invariant observer.Valid() && !observer.failed && Apart(reader, observer)
      invariant reader.scopes == observer.scopes == Scopes(old(reader.scopes), tags[..done])
      decreases |tags| - done
    {
      ScopesStep(old(reader.scopes), tags, done);
      var ok := Both(reader, observer, tags[done]);
      if !ok {
        return;
      }
      done := done + 1;
    }
    assert tags[..|tags|] == tags;
  }

  method Both(reader: TokenReader, observer: SourceObserver, tag: Tag) returns (ok: bool)
    requires reader.Valid() && !reader.failed && !reader.closed && !reader.needEnd
    requires observer.Valid() && !observer.failed
    requires reader.scopes == observer.scopes && Apart(reader, observer)
    modifies reader, reader.account, observer
    ensures ok ==> reader.Valid() && !reader.failed && !reader.closed && !reader.needEnd
    ensures ok ==> observer.Valid() && !observer.failed && Apart(reader, observer)
    ensures ok ==> reader.scopes == observer.scopes == After(old(reader.scopes), tag)
  {
    hide Reversible;
    hide Flatten;
    hide SumRetained;
    hide SumFrames;
    hide Agrees;
    hide EntityFrames.Distinct;
    hide DepthsNested;
    hide EntityFrames.Readable;
    hide Legible;
    hide EntityFrames.Named;
    hide XmlFixed;
    match tag
    case Opening(name, attributes) => ok := OpenBoth(reader, observer, name, attributes);
    case Closing(name) => ok := CloseBoth(reader, observer, name);
  }

  method OpenBoth(reader: TokenReader, observer: SourceObserver, name: QName, attributes: seq<Attribute>) returns (ok: bool)
    requires reader.Valid() && !reader.failed && !reader.closed && !reader.needEnd
    requires observer.Valid() && !observer.failed
    requires reader.scopes == observer.scopes && Apart(reader, observer)
    modifies reader, reader.account, observer
    ensures ok ==> reader.Valid() && !reader.failed && !reader.closed && !reader.needEnd
    ensures ok ==> observer.Valid() && !observer.failed && Apart(reader, observer)
    ensures ok ==> reader.scopes == observer.scopes == old(reader.scopes) + [Declared(attributes)]
  {
    hide Reversible;
    hide Flatten;
    hide SumRetained;
    hide SumFrames;
    hide Agrees;
    hide EntityFrames.Distinct;
    hide DepthsNested;
    hide EntityFrames.Readable;
    hide Legible;
    hide EntityFrames.Named;
    hide XmlFixed;
    hide DeclarationsAllowed;
    hide NamesAllowed;
    hide Declared;
    var out := reader.OpenElement(name, attributes);
    ok := out.Value?;
    if ok {
      ok := observer.Open(attributes, 192);
    }
  }

  method CloseBoth(reader: TokenReader, observer: SourceObserver, name: QName) returns (ok: bool)
    requires reader.Valid() && !reader.failed && !reader.closed && !reader.needEnd
    requires observer.Valid() && !observer.failed
    requires reader.scopes == observer.scopes && Apart(reader, observer)
    modifies reader, reader.account, observer
    ensures ok ==> reader.Valid() && !reader.failed && !reader.closed && !reader.needEnd
    ensures ok ==> observer.Valid() && !observer.failed && Apart(reader, observer)
    ensures ok ==> old(reader.scopes) != [] && reader.scopes == observer.scopes == old(reader.scopes)[..|old(reader.scopes)| - 1]
  {
    hide Flatten;
    hide SumRetained;
    hide SumFrames;
    hide Agrees;
    hide EntityFrames.Distinct;
    hide DepthsNested;
    hide EntityFrames.Readable;
    hide Legible;
    hide EntityFrames.Named;
    hide XmlFixed;
    hide LeadsOut;
    var out := reader.EndElement(name);
    ok := out.Value? && observer.stack != [];
    if ok {
      observer.Pop();
    }
  }

  function After(scopes: seq<Scope>, tag: Tag): seq<Scope> {
    match tag
    case Opening(_, attributes) => scopes + [Declared(attributes)]
    case Closing(_) => if scopes == [] then [] else scopes[..|scopes| - 1]
  }

  function Scopes(scopes: seq<Scope>, tags: seq<Tag>): seq<Scope> {
    if tags == [] then scopes else After(Scopes(scopes, tags[..|tags| - 1]), tags[|tags| - 1])
  }

  lemma ScopesStep(scopes: seq<Scope>, tags: seq<Tag>, i: nat)
    requires i < |tags|
    ensures Scopes(scopes, tags[..i + 1]) == After(Scopes(scopes, tags[..i]), tags[i])
  {
    assert tags[..i + 1][..i] == tags[..i];
  }
}
