/** Namespaces in XML 1.0: a stack of scopes, and the binding table with an undo log that
    two readers keep instead of it. */
module Namespaces {

  const XML_URI := "http://www.w3.org/XML/1998/namespace"
  const XMLNS_URI := "http://www.w3.org/2000/xmlns/"

  /** In a start tag `space` is the prefix; after expansion it is the namespace name. */
  datatype QName = QName(space: string, local: string)
  datatype Attribute = Attribute(name: QName, value: string)
  datatype Binding = Unbound | Bound(uri: string)

  type Scope = map<string, string>

  predicate IsDeclaration(a: Attribute) {
    a.name.space == "xmlns" || (a.name.space == "" && a.name.local == "xmlns")
  }

  function DeclaredPrefix(a: Attribute): string {
    if a.name.space == "" then "" else a.name.local
  }

  function Declared(attributes: seq<Attribute>): Scope {
    if attributes == [] then map[]
    else
      var a := attributes[|attributes| - 1];
      var before := Declared(attributes[..|attributes| - 1]);
      if IsDeclaration(a) then before[DeclaredPrefix(a) := a.value] else before
  }

  /** The innermost open declaration of a prefix. */
  function Resolve(scopes: seq<Scope>, prefix: string): Binding {
    if scopes == [] then Unbound
    else
      var top := scopes[|scopes| - 1];
      if prefix in top then Bound(top[prefix]) else Resolve(scopes[..|scopes| - 1], prefix)
  }

  /** The prefix xml needs no declaration. */
  function Meaning(scopes: seq<Scope>, prefix: string): Binding {
    if prefix == "xml" then Bound(XML_URI) else Resolve(scopes, prefix)
  }

  // Constraints on a start tag (Namespaces in XML 1.0, sections 3, 5 and 6.3)

  predicate DeclarationAllowed(a: Attribute) {
    var prefix := DeclaredPrefix(a);
    && prefix != "xmlns" && a.value != XMLNS_URI
    && (prefix == "xml" <==> a.value == XML_URI)
    && (prefix != "" ==> a.value != "")
  }

  function ExpandedName(scopes: seq<Scope>, name: QName): QName {
    if name.space == "" || Meaning(scopes, name.space).Unbound? then name
    else QName(Meaning(scopes, name.space).uri, name.local)
  }

  ghost predicate TagAllowed(scopes: seq<Scope>, name: QName, attributes: seq<Attribute>) {
    var inner := scopes + [Declared(attributes)];
    DeclarationsAllowed(attributes) && NamesAllowed(inner, name, attributes)
  }

  /** Attributes differ lexically, and every declaration is one that may be made. */
  ghost predicate DeclarationsAllowed(attributes: seq<Attribute>) {
    && (forall i, j :: 0 <= i < j < |attributes| ==> attributes[i].name != attributes[j].name)
    && (forall i :: 0 <= i < |attributes| && IsDeclaration(attributes[i]) ==> DeclarationAllowed(attributes[i]))
  }

  /** Every prefix is bound in the scopes of the tag, and attributes differ after expansion. */
  ghost predicate NamesAllowed(inner: seq<Scope>, name: QName, attributes: seq<Attribute>) {
    && name.space != "xmlns"
    && (name.space != "" ==> Meaning(inner, name.space).Bound?)
    && (forall i :: 0 <= i < |attributes| && !IsDeclaration(attributes[i]) ==> PrefixBound(inner, attributes[i]))
    && ExpandedDistinct(inner, attributes)
  }

  predicate PrefixBound(scopes: seq<Scope>, a: Attribute) {
    a.name.space != "" ==> Meaning(scopes, a.name.space).Bound?
  }

  ghost predicate ExpandedDistinct(scopes: seq<Scope>, attributes: seq<Attribute>) {
    forall i, j :: 0 <= i < j < |attributes| && !IsDeclaration(attributes[i]) && !IsDeclaration(attributes[j]) ==>
      ExpandedName(scopes, attributes[i].name) != ExpandedName(scopes, attributes[j].name)
  }

  // The binding table and its undo log

  datatype Undo = Undo(prefix: string, previous: Binding)

  type Table = map<string, Binding>

  /** A missing key reads as an unbound prefix. */
  function Get(table: Table, prefix: string): Binding {
    if prefix in table then table[prefix] else Unbound
  }

  ghost predicate SameBindings(a: Table, b: Table) {
    forall p :: Get(a, p) == Get(b, p)
  }

  function Rewind(table: Table, undo: seq<Undo>): Table
    decreases |undo|
  {
    if undo == [] then table
    else
      var last := undo[|undo| - 1];
      Rewind(table[last.prefix := last.previous], undo[..|undo| - 1])
  }

  lemma {:induction false} RewindCongruent(a: Table, b: Table, undo: seq<Undo>)
    requires SameBindings(a, b)
    ensures SameBindings(Rewind(a, undo), Rewind(b, undo))
    decreases |undo|
  {
    if undo != [] {
      var last := undo[|undo| - 1];
      var a', b' := a[last.prefix := last.previous], b[last.prefix := last.previous];
      forall p
        ensures Get(a', p) == Get(b', p)
      {
        assert Get(a, p) == Get(b, p);
      }
      RewindCongruent(a', b', undo[..|undo| - 1]);
    }
  }

  /** Recording the old binding before a change lets Rewind take the change back. */
  lemma RewindRecord(table: Table, undo: seq<Undo>, prefix: string, binding: Binding)
    ensures SameBindings(Rewind(table[prefix := binding], undo + [Undo(prefix, Get(table, prefix))]), Rewind(table, undo))
  {
    var undo' := undo + [Undo(prefix, Get(table, prefix))];
    assert undo'[..|undo'| - 1] == undo;
    var restored := table[prefix := binding][prefix := Get(table, prefix)];
    assert SameBindings(restored, table);
    RewindCongruent(restored, table, undo);
  }

  ghost predicate Shows(table: Table, scopes: seq<Scope>) {
    forall p :: Get(table, p) == Resolve(scopes, p)
  }

  /** The table shows the scopes, and so does every table the undo log leads back to. */
  ghost predicate Agrees(table: Table, log: seq<seq<Undo>>, scopes: seq<Scope>)
    decreases |log|
  {
    && |log| == |scopes|
    && Shows(table, scopes)
    && (log != [] ==> Agrees(Rewind(table, log[|log| - 1]), log[..|log| - 1], scopes[..|scopes| - 1]))
  }

  lemma AgreesShows(table: Table, log: seq<seq<Undo>>, scopes: seq<Scope>)
    requires Agrees(table, log, scopes)
    ensures Shows(table, scopes) && |log| == |scopes|
  {
  }

  lemma AgreesPop(table: Table, log: seq<seq<Undo>>, scopes: seq<Scope>)
    requires Agrees(table, log, scopes) && log != []
    ensures |log| == |scopes|
    ensures Agrees(Rewind(table, log[|log| - 1]), log[..|log| - 1], scopes[..|scopes| - 1])
  {
  }

  lemma {:induction false} AgreesCongruent(a: Table, b: Table, log: seq<seq<Undo>>, scopes: seq<Scope>)
    requires SameBindings(a, b) && Agrees(a, log, scopes)
    ensures Agrees(b, log, scopes)
    decreases |log|
  {
    if log != [] {
      var last := log[|log| - 1];
      RewindCongruent(a, b, last);
      AgreesCongruent(Rewind(a, last), Rewind(b, last), log[..|log| - 1], scopes[..|scopes| - 1]);
    }
  }

  /** Opening a tag: if the new entries rewind to the old table, the pair still agrees. */
  lemma AgreesOpen(before: Table, after: Table, log: seq<seq<Undo>>, scopes: seq<Scope>, undo: seq<Undo>, scope: Scope)
    requires Agrees(before, log, scopes)
    requires SameBindings(Rewind(after, undo), before)
    requires Shows(after, scopes + [scope])
    ensures Agrees(after, log + [undo], scopes + [scope])
  {
    AgreesCongruent(before, Rewind(after, undo), log, scopes);
    assert (log + [undo])[..|log|] == log && (scopes + [scope])[..|scopes|] == scopes;
  }

  lemma DeclaredStep(attributes: seq<Attribute>, i: nat)
    requires i < |attributes|
    ensures Declared(attributes[..i + 1]) ==
            if IsDeclaration(attributes[i])
            then Declared(attributes[..i])[DeclaredPrefix(attributes[i]) := attributes[i].value]
            else Declared(attributes[..i])
  {
    assert attributes[..i + 1][..i] == attributes[..i];
  }

  /** One attribute more: it must differ from those before it, and a declaration must be allowed. */
  lemma DeclarationsStep(attributes: seq<Attribute>, i: nat)
    requires i < |attributes|
    ensures DeclarationsAllowed(attributes[..i + 1]) <==>
            && DeclarationsAllowed(attributes[..i])
            && (forall j :: 0 <= j < i ==> attributes[j].name != attributes[i].name)
            && (IsDeclaration(attributes[i]) ==> DeclarationAllowed(attributes[i]))
    ensures DeclarationsAllowed(attributes) ==> DeclarationsAllowed(attributes[..i + 1])
  {
    var some, more := attributes[..i], attributes[..i + 1];
    assert forall j :: 0 <= j < i ==> some[j] == more[j] == attributes[j];
    assert more[i] == attributes[i];
    assert DeclarationsAllowed(more) ==> DeclarationsAllowed(some);
  }

  // What declarations can do

  /** The prefix xml means its namespace and no other prefix does, xmlns is never declared nor its
      namespace bound, and no prefix is undeclared. */
  ghost predicate Lawful(scope: Scope) {
    forall p :: p in scope ==> LawfulBinding(p, scope[p])
  }

  predicate LawfulBinding(p: string, uri: string) {
    && p != "xmlns" && uri != "http://www.w3.org/2000/xmlns/"
    && (p == "xml" <==> uri == "http://www.w3.org/XML/1998/namespace")
    && (p != "" ==> uri != "")
  }

  lemma AllowedBinding(a: Attribute, p: string)
    requires Declares(a, p)
    ensures IsDeclaration(a) && DeclaredPrefix(a) == p && (DeclarationAllowed(a) <==> LawfulBinding(p, a.value))
  {
  }

  /** The prefix a declaration is for. */
  ghost predicate Declares(a: Attribute, p: string) {
    if p == "" then a.name == QName("", "xmlns") else a.name == QName("xmlns", p)
  }

  lemma DeclaresPrefix(a: Attribute)
    requires IsDeclaration(a) && a.name.local != ""
    ensures Declares(a, DeclaredPrefix(a))
  {
  }

  lemma {:induction false} DeclaredIs(attributes: seq<Attribute>)
    requires forall i :: 0 <= i < |attributes| ==> attributes[i].name.local != ""
    ensures forall p :: p in Declared(attributes) ==>
              exists i :: 0 <= i < |attributes| && Declares(attributes[i], p) && attributes[i].value == Declared(attributes)[p]
    ensures forall i :: 0 <= i < |attributes| && IsDeclaration(attributes[i]) ==>
              && Declares(attributes[i], DeclaredPrefix(attributes[i])) && DeclaredPrefix(attributes[i]) in Declared(attributes)
    decreases |attributes|
  {
    if attributes != [] {
      var before, last := attributes[..|attributes| - 1], attributes[|attributes| - 1];
      DeclaredIs(before);
      hide Declares;
      forall p | p in Declared(attributes)
        ensures exists i :: 0 <= i < |attributes| && Declares(attributes[i], p) && attributes[i].value == Declared(attributes)[p]
      {
        if IsDeclaration(last) && DeclaredPrefix(last) == p {
          DeclaresPrefix(last);
          assert Declares(attributes[|attributes| - 1], p);
        } else {
          assert p in Declared(before) && Declared(before)[p] == Declared(attributes)[p];
          var i :| 0 <= i < |before| && Declares(before[i], p) && before[i].value == Declared(before)[p];
          assert attributes[i] == before[i];
        }
      }
    }
  }

  ghost predicate NamesDiffer(attributes: seq<Attribute>) {
    forall i, j :: 0 <= i < j < |attributes| ==> attributes[i].name != attributes[j].name
  }

  /** Declarations may be made exactly if the attributes differ and the scope they make is lawful. */
  lemma DeclarationsMean(attributes: seq<Attribute>)
    requires forall i :: 0 <= i < |attributes| ==> attributes[i].name.local != ""
    ensures DeclarationsAllowed(attributes) <==> NamesDiffer(attributes) && Lawful(Declared(attributes))
  {
    if NamesDiffer(attributes) && Lawful(Declared(attributes)) {
      LawfulAllowed(attributes);
    }
    if DeclarationsAllowed(attributes) {
      AllowedLawful(attributes);
    }
  }

  lemma LawfulAllowed(attributes: seq<Attribute>)
    requires forall i :: 0 <= i < |attributes| ==> attributes[i].name.local != ""
    requires NamesDiffer(attributes) && Lawful(Declared(attributes))
    ensures DeclarationsAllowed(attributes)
  {
    hide Declared;
    hide LawfulBinding;
    hide DeclarationAllowed;
    hide IsDeclaration;
    DeclaredIs(attributes);
    forall i | 0 <= i < |attributes| && IsDeclaration(attributes[i])
      ensures DeclarationAllowed(attributes[i])
    {
      var p := DeclaredPrefix(attributes[i]);
      var j :| 0 <= j < |attributes| && Declares(attributes[j], p) && attributes[j].value == Declared(attributes)[p];
      assert attributes[i].name == attributes[j].name;
      assert i == j;
      AllowedBinding(attributes[i], p);
    }
  }

  lemma AllowedLawful(attributes: seq<Attribute>)
    requires forall i :: 0 <= i < |attributes| ==> attributes[i].name.local != ""
    requires DeclarationsAllowed(attributes)
    ensures NamesDiffer(attributes) && Lawful(Declared(attributes))
  {
    hide Declared;
    hide LawfulBinding;
    hide DeclarationAllowed;
    hide IsDeclaration;
    DeclaredIs(attributes);
    forall p | p in Declared(attributes)
      ensures LawfulBinding(p, Declared(attributes)[p])
    {
      var i :| 0 <= i < |attributes| && Declares(attributes[i], p) && attributes[i].value == Declared(attributes)[p];
      AllowedBinding(attributes[i], p);
    }
  }

  /** In lawful scopes xml has its meaning and no other prefix shares it, and no prefix means the
      namespace of declarations or none. */
  lemma {:induction false} LawfulMeaning(scopes: seq<Scope>, p: string)
    requires forall i :: 0 <= i < |scopes| ==> Lawful(scopes[i])
    ensures p == "xml" <==> Meaning(scopes, p) == Bound("http://www.w3.org/XML/1998/namespace")
    ensures Meaning(scopes, p) != Bound("http://www.w3.org/2000/xmlns/") && (p == "xmlns" ==> Meaning(scopes, p) == Unbound)
    ensures p != "" ==> Meaning(scopes, p) != Bound("")
    decreases |scopes|
  {
    if scopes != [] {
      LawfulMeaning(scopes[..|scopes| - 1], p);
    }
  }

  /** Two attributes with prefixes that mean the same namespace, and the same local name. */
  predicate Clash(scopes: seq<Scope>, a: QName, b: QName) {
    a.local == b.local && a.space != "" && b.space != "" && Meaning(scopes, a.space) == Meaning(scopes, b.space)
  }

  /** Neither xmlns nor with that prefix. */
  predicate Ordinary(a: Attribute) {
    a.name.space != "xmlns" && a.name != QName("", "xmlns")
  }

  lemma ExpandedDiffer(scopes: seq<Scope>, a: QName, b: QName)
    requires forall i :: 0 <= i < |scopes| ==> Lawful(scopes[i])
    requires a != b
    requires (a.space != "" ==> Meaning(scopes, a.space).Bound?) && (b.space != "" ==> Meaning(scopes, b.space).Bound?)
    ensures ExpandedName(scopes, a) == ExpandedName(scopes, b) <==> Clash(scopes, a, b)
  {
    LawfulMeaning(scopes, a.space);
    LawfulMeaning(scopes, b.space);
  }

  ghost predicate PrefixesBound(scopes: seq<Scope>, attributes: seq<Attribute>) {
    forall i :: 0 <= i < |attributes| && Ordinary(attributes[i]) && attributes[i].name.space != "" ==>
      Meaning(scopes, attributes[i].name.space).Bound?
  }

  ghost predicate NoneClash(scopes: seq<Scope>, attributes: seq<Attribute>) {
    forall i, j :: 0 <= i < j < |attributes| && Ordinary(attributes[i]) && Ordinary(attributes[j]) ==>
      !Clash(scopes, attributes[i].name, attributes[j].name)
  }

  lemma ClashesMean(scopes: seq<Scope>, attributes: seq<Attribute>)
    requires forall i :: 0 <= i < |scopes| ==> Lawful(scopes[i])
    requires NamesDiffer(attributes) && PrefixesBound(scopes, attributes)
    ensures ExpandedDistinct(scopes, attributes) <==> NoneClash(scopes, attributes)
  {
    hide Lawful;
    hide Clash;
    hide ExpandedName;
    hide Meaning;
    forall i, j | 0 <= i < j < |attributes| && Ordinary(attributes[i]) && Ordinary(attributes[j])
      ensures ExpandedName(scopes, attributes[i].name) == ExpandedName(scopes, attributes[j].name) <==>
              Clash(scopes, attributes[i].name, attributes[j].name)
    {
      ExpandedDiffer(scopes, attributes[i].name, attributes[j].name);
    }
  }

  /** Inside lawful scopes a tag may stand exactly if its attributes differ, its declarations are
      lawful, every prefix is bound in its own scope and no two attributes clash there. */
  lemma TagMeans(scopes: seq<Scope>, name: QName, attributes: seq<Attribute>)
    requires forall i :: 0 <= i < |scopes| ==> Lawful(scopes[i])
    requires forall i :: 0 <= i < |attributes| ==> attributes[i].name.local != ""
    ensures var inner := scopes + [Declared(attributes)];
            TagAllowed(scopes, name, attributes) <==>
              && NamesDiffer(attributes) && Lawful(Declared(attributes))
              && name.space != "xmlns" && (name.space != "" ==> Meaning(inner, name.space).Bound?)
              && PrefixesBound(inner, attributes) && NoneClash(inner, attributes)
  {
    var inner := scopes + [Declared(attributes)];
    hide Lawful;
    hide Declared;
    hide ExpandedDistinct;
    hide NoneClash;
    hide NamesDiffer;
    hide DeclarationsAllowed;
    hide Meaning;
    DeclarationsMean(attributes);
    assert PrefixesBound(inner, attributes) <==>
           forall i :: 0 <= i < |attributes| && !IsDeclaration(attributes[i]) ==> PrefixBound(inner, attributes[i]);
    if NamesDiffer(attributes) && Lawful(Declared(attributes)) && PrefixesBound(inner, attributes) {
      ClashesMean(inner, attributes);
    }
  }
}
