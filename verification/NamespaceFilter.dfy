/** Removing foreign markup from a token stream: the filter reads tokens one at a time, the
    specification prunes a tree. */
module NamespaceFilters {
  import opened Namespaces

  const XLINK_URI := "http://www.w3.org/1999/xlink"

  /** Tokens with expanded names. */
  datatype Lexeme =
    | Start(name: QName, attributes: seq<Attribute>)
    | End(endName: QName)
    | Other(content: string)

  datatype Node =
    | Element(name: QName, attributes: seq<Attribute>, children: seq<Node>)
    | Content(content: string)

  type Allow = (string, QName) -> bool

  function Serialize(node: Node): seq<Lexeme> {
    match node
    case Element(name, attributes, children) => [Start(name, attributes)] + SerializeAll(children) + [End(name)]
    case Content(content) => [Other(content)]
  }

  function SerializeAll(nodes: seq<Node>): seq<Lexeme> {
    if nodes == [] then [] else Serialize(nodes[0]) + SerializeAll(nodes[1..])
  }

  // The specification

  predicate Keeps(allow: Allow, element: string, a: Attribute) {
    if a.name.space == "" then a.name.local != "xmlns" else allow(element, a.name)
  }

  function Filtered(allow: Allow, element: string, attributes: seq<Attribute>): seq<Attribute> {
    if attributes == [] then []
    else
      var before := Filtered(allow, element, attributes[..|attributes| - 1]);
      var last := attributes[|attributes| - 1];
      if Keeps(allow, element, last) then before + [last] else before
  }

  /** The tree without foreign subtrees, and with each element's attributes filtered. */
  function Prune(allow: Allow, node: Node): Node {
    match node
    case Element(name, attributes, children) =>
      Element(name, Filtered(allow, name.local, attributes), PruneAll(allow, children))
    case Content(_) => node
  }

  function PruneAll(allow: Allow, nodes: seq<Node>): seq<Node> {
    if nodes == [] then []
    else if Foreign(nodes[0]) then PruneAll(allow, nodes[1..])
    else [Prune(allow, nodes[0])] + PruneAll(allow, nodes[1..])
  }

  predicate Foreign(node: Node) {
    node.Element? && node.name.space != ""
  }

  // The filter as a function of the tokens still to come

  /** `skip` counts the open elements of a foreign subtree. */
  function Kept(allow: Allow, tokens: seq<Lexeme>, started: bool, depth: nat, skip: nat): seq<Lexeme>
    decreases |tokens|
  {
    if tokens == [] then []
    else
      var token, rest := tokens[0], tokens[1..];
      if skip > 0 then
        Kept(allow, rest, started, depth, if token.Start? then skip + 1 else if token.End? then skip - 1 else skip)
      else if started && depth == 0 then [token] + Kept(allow, rest, started, depth, 0)
      else
        match token
        case Start(name, attributes) =>
          if name.space == "" then
            [Start(name, Filtered(allow, name.local, attributes))] + Kept(allow, rest, true, depth + 1, 0)
          else if started then Kept(allow, rest, started, depth, 1)
          else []
        case End(_) => [token] + Kept(allow, rest, started, if depth == 0 then 0 else depth - 1, 0)
        case Other(_) => [token] + Kept(allow, rest, started, depth, 0)
  }

  lemma KeptStep(allow: Allow, token: Lexeme, rest: seq<Lexeme>, started: bool, depth: nat, skip: nat)
    ensures Kept(allow, [token] + rest, started, depth, skip) ==
            if skip > 0 then
              Kept(allow, rest, started, depth, if token.Start? then skip + 1 else if token.End? then skip - 1 else skip)
            else if started && depth == 0 then [token] + Kept(allow, rest, started, depth, 0)
            else
              match token
              case Start(name, attributes) =>
                if name.space == "" then
                  [Start(name, Filtered(allow, name.local, attributes))] + Kept(allow, rest, true, depth + 1, 0)
                else if started then Kept(allow, rest, started, depth, 1)
                else []
              case End(_) => [token] + Kept(allow, rest, started, if depth == 0 then 0 else depth - 1, 0)
              case Other(_) => [token] + Kept(allow, rest, started, depth, 0)
  {
    assert ([token] + rest)[1..] == rest;
  }

  /** A subtree is skipped as a whole. */
  lemma {:induction false} SkipTree(allow: Allow, node: Node, rest: seq<Lexeme>, started: bool, depth: nat, skip: nat)
    requires skip > 0
    ensures Kept(allow, Serialize(node) + rest, started, depth, skip) == Kept(allow, rest, started, depth, skip)
    decreases node, 0
  {
    hide Kept;
    match node
    case Content(content) =>
      KeptStep(allow, Other(content), rest, started, depth, skip);
    case Element(name, attributes, children) =>
      var inner := SerializeAll(children) + ([End(name)] + rest);
      assert Serialize(node) + rest == [Start(name, attributes)] + inner;
      KeptStep(allow, Start(name, attributes), inner, started, depth, skip);
      SkipTrees(allow, children, [End(name)] + rest, started, depth, skip + 1);
      KeptStep(allow, End(name), rest, started, depth, skip + 1);
  }

  lemma {:induction false} SkipTrees(allow: Allow, nodes: seq<Node>, rest: seq<Lexeme>, started: bool, depth: nat, skip: nat)
    requires skip > 0
    ensures Kept(allow, SerializeAll(nodes) + rest, started, depth, skip) == Kept(allow, rest, started, depth, skip)
    decreases nodes, 1
  {
    hide Kept;
    if nodes == [] {
      assert SerializeAll(nodes) + rest == rest;
    } else {
      var others := SerializeAll(nodes[1..]) + rest;
      assert SerializeAll(nodes) + rest == Serialize(nodes[0]) + others;
      SkipTree(allow, nodes[0], others, started, depth, skip);
      SkipTrees(allow, nodes[1..], rest, started, depth, skip);
    }
  }

  /** Inside the root, the tokens of a list of nodes come out as those of the pruned list. */
  lemma {:induction false} KeptTrees(allow: Allow, nodes: seq<Node>, rest: seq<Lexeme>, depth: nat)
    requires depth > 0
    ensures Kept(allow, SerializeAll(nodes) + rest, true, depth, 0) ==
            SerializeAll(PruneAll(allow, nodes)) + Kept(allow, rest, true, depth, 0)
    decreases nodes, 1
  {
    hide Kept;
    if nodes == [] {
      assert SerializeAll(nodes) + rest == rest;
      assert [] + Kept(allow, rest, true, depth, 0) == Kept(allow, rest, true, depth, 0);
    } else {
      var node, others := nodes[0], SerializeAll(nodes[1..]) + rest;
      var tail := Kept(allow, rest, true, depth, 0);
      var pruned := PruneAll(allow, nodes[1..]);
      assert SerializeAll(nodes) + rest == Serialize(node) + others;
      KeptTrees(allow, nodes[1..], rest, depth);
      if Foreign(node) {
        SkipForeign(allow, node, others, depth);
      } else {
        KeptTree(allow, node, others, true, depth);
        assert ([Prune(allow, node)] + pruned)[1..] == pruned;
        assert SerializeAll([Prune(allow, node)] + pruned) + tail == Serialize(Prune(allow, node)) + (SerializeAll(pruned) + tail);
      }
    }
  }

  lemma SkipForeign(allow: Allow, node: Node, rest: seq<Lexeme>, depth: nat)
    requires Foreign(node) && depth > 0
    ensures Kept(allow, Serialize(node) + rest, true, depth, 0) == Kept(allow, rest, true, depth, 0)
  {
    hide Kept;
    var inner := SerializeAll(node.children) + ([End(node.name)] + rest);
    assert Serialize(node) + rest == [Start(node.name, node.attributes)] + inner;
    KeptStep(allow, Start(node.name, node.attributes), inner, true, depth, 0);
    SkipTrees(allow, node.children, [End(node.name)] + rest, true, depth, 1);
    KeptStep(allow, End(node.name), rest, true, depth, 1);
  }

  lemma {:induction false} KeptTree(allow: Allow, node: Node, rest: seq<Lexeme>, started: bool, depth: nat)
    requires !Foreign(node) && (started ==> depth > 0)
    ensures Kept(allow, Serialize(node) + rest, started, depth, 0) ==
            Serialize(Prune(allow, node)) + Kept(allow, rest, started || node.Element?, depth, 0)
    decreases node, 0
  {
    hide Kept;
    hide Filtered;
    match node
    case Content(content) =>
      KeptStep(allow, Other(content), rest, started, depth, 0);
    case Element(name, attributes, children) =>
      var inner := SerializeAll(children) + ([End(name)] + rest);
      assert Serialize(node) + rest == [Start(name, attributes)] + inner;
      KeptStep(allow, Start(name, attributes), inner, started, depth, 0);
      KeptTrees(allow, children, [End(name)] + rest, depth + 1);
      KeptStep(allow, End(name), rest, true, depth + 1, 0);
      var pruned := SerializeAll(PruneAll(allow, children));
      var tail := Kept(allow, rest, true, depth, 0);
      var head := [Start(name, Filtered(allow, name.local, attributes))];
      assert head + (pruned + ([End(name)] + tail)) == head + pruned + [End(name)] + tail;
  }

  predicate Miscellaneous(tokens: seq<Lexeme>) {
    forall i :: 0 <= i < |tokens| ==> tokens[i].Other?
  }

  /** Before the root and after it everything passes. */
  lemma {:induction false} KeptProlog(allow: Allow, prolog: seq<Lexeme>, rest: seq<Lexeme>)
    requires Miscellaneous(prolog)
    ensures Kept(allow, prolog + rest, false, 0, 0) == prolog + Kept(allow, rest, false, 0, 0)
  {
    hide Kept;
    if prolog == [] {
      assert prolog + rest == rest;
      assert [] + Kept(allow, rest, false, 0, 0) == Kept(allow, rest, false, 0, 0);
    } else {
      var others := prolog[1..] + rest;
      assert prolog + rest == [prolog[0]] + others;
      KeptStep(allow, prolog[0], others, false, 0, 0);
      KeptProlog(allow, prolog[1..], rest);
      assert [prolog[0]] + (prolog[1..] + Kept(allow, rest, false, 0, 0)) == prolog + Kept(allow, rest, false, 0, 0);
    }
  }

  lemma {:induction false} KeptTail(allow: Allow, tail: seq<Lexeme>)
    ensures Kept(allow, tail, true, 0, 0) == tail
  {
    if tail != [] {
      KeptTail(allow, tail[1..]);
    }
  }

  /** A document with an unqualified root comes out as the serialization of its pruned tree;
      what follows the root is left alone. */
  lemma DocumentIsPruned(allow: Allow, prolog: seq<Lexeme>, root: Node, tail: seq<Lexeme>)
    requires Miscellaneous(prolog) && root.Element? && !Foreign(root)
    ensures Kept(allow, prolog + Serialize(root) + tail, false, 0, 0) == prolog + Serialize(Prune(allow, root)) + tail
  {
    hide Kept;
    hide Serialize;
    hide Prune;
    assert prolog + Serialize(root) + tail == prolog + (Serialize(root) + tail);
    KeptProlog(allow, prolog, Serialize(root) + tail);
    KeptTree(allow, root, tail, false, 0);
    KeptTail(allow, tail);
    assert prolog + (Serialize(Prune(allow, root)) + tail) == prolog + Serialize(Prune(allow, root)) + tail;
  }

  // The rule MusicXML uses

  function MusicXmlQualified(element: string, name: QName): bool {
    if name.space == XML_URI then name.local == "lang" || name.local == "space"
    else
      && name.space == XLINK_URI
      && element in {"link", "opus", "part-link", "opus-link", "score"}
      && name.local in {"href", "type", "role", "title", "show", "actuate"}
  }

  /** The qualified names the model decoder may see on an element. */
  predicate Wanted(element: string, name: QName) {
    || name == QName("http://www.w3.org/XML/1998/namespace", "lang")
    || name == QName("http://www.w3.org/XML/1998/namespace", "space")
    || (&& (element == "link" || element == "opus" || element == "part-link" || element == "opus-link" || element == "score")
        && (|| name == QName("http://www.w3.org/1999/xlink", "href") || name == QName("http://www.w3.org/1999/xlink", "type")
            || name == QName("http://www.w3.org/1999/xlink", "role") || name == QName("http://www.w3.org/1999/xlink", "title")
            || name == QName("http://www.w3.org/1999/xlink", "show") || name == QName("http://www.w3.org/1999/xlink", "actuate")))
  }

  /** Of the attributes of an element exactly the unqualified ones that are no declaration and the
      wanted ones are kept (`OneFiltered`), in order. */
  lemma {:induction false} FilteredExact(element: string, attributes: seq<Attribute>, more: seq<Attribute>)
    ensures Filtered(MusicXmlQualified, element, attributes + more) ==
            Filtered(MusicXmlQualified, element, attributes) + Filtered(MusicXmlQualified, element, more)
    decreases |more|
  {
    if more == [] {
      assert attributes + more == attributes;
    } else {
      assert (attributes + more)[..|attributes + more| - 1] == attributes + more[..|more| - 1];
      FilteredExact(element, attributes, more[..|more| - 1]);
    }
  }

  lemma OneFiltered(element: string, a: Attribute)
    ensures Filtered(MusicXmlQualified, element, [a]) ==
            if (a.name.space == "" && a.name.local != "xmlns") || Wanted(element, a.name) then [a] else []
  {
    assert [a][..0] == [];
    WantedMeans(element, a.name);
  }

  lemma WantedMeans(element: string, name: QName)
    ensures Wanted(element, name) <==> name.space != "" && MusicXmlQualified(element, name)
  {
  }

  /** Declarations never reach the model decoder, and a filtered list is filtered already. */
  lemma {:induction false} FilteredSettles(element: string, attributes: seq<Attribute>)
    ensures var kept := Filtered(MusicXmlQualified, element, attributes);
            && (forall i :: 0 <= i < |kept| ==> Keeps(MusicXmlQualified, element, kept[i]) && !IsDeclaration(kept[i]))
            && Filtered(MusicXmlQualified, element, kept) == kept
  {
    if attributes != [] {
      var before := attributes[..|attributes| - 1];
      FilteredSettles(element, before);
      var last := attributes[|attributes| - 1];
      var some := Filtered(MusicXmlQualified, element, before);
      assert (some + [last])[..|some|] == some;
    }
  }

  /** Unqualified elements throughout, with nothing but attributes the model decoder may see. */
  ghost predicate Plain(node: Node) {
    match node
    case Content(_) => true
    case Element(name, attributes, children) =>
      && name.space == ""
      && (forall i :: 0 <= i < |attributes| ==> Visible(name.local, attributes[i].name))
      && AllPlain(children)
  }

  ghost predicate AllPlain(nodes: seq<Node>) {
    nodes != [] ==> Plain(nodes[0]) && AllPlain(nodes[1..])
  }

  predicate Visible(element: string, name: QName) {
    (name.space == "" && name.local != "xmlns") || Wanted(element, name)
  }

  lemma {:induction false} FilteredVisible(element: string, attributes: seq<Attribute>)
    ensures var kept := Filtered(MusicXmlQualified, element, attributes);
            && (forall i :: 0 <= i < |kept| ==> Visible(element, kept[i].name))
            && ((forall i :: 0 <= i < |attributes| ==> Visible(element, attributes[i].name)) ==> kept == attributes)
  {
    if attributes != [] {
      FilteredVisible(element, attributes[..|attributes| - 1]);
      WantedMeans(element, attributes[|attributes| - 1].name);
    }
  }

  /** What the model gets is plain, and of a plain tree it gets everything. */
  lemma {:induction false} PrunedIsPlain(node: Node)
    requires !Foreign(node)
    ensures Plain(Prune(MusicXmlQualified, node))
    ensures Plain(node) ==> Prune(MusicXmlQualified, node) == node
    decreases node
  {
    hide Filtered;
    hide Visible;
    if node.Element? {
      FilteredVisible(node.name.local, node.attributes);
      PrunedArePlain(node.children);
    }
  }

  lemma {:induction false} PrunedArePlain(nodes: seq<Node>)
    ensures AllPlain(PruneAll(MusicXmlQualified, nodes))
    ensures AllPlain(nodes) ==> PruneAll(MusicXmlQualified, nodes) == nodes
    decreases nodes
  {
    hide Prune;
    if nodes != [] {
      PrunedArePlain(nodes[1..]);
      if !Foreign(nodes[0]) {
        PrunedIsPlain(nodes[0]);
        var first, rest := Prune(MusicXmlQualified, nodes[0]), PruneAll(MusicXmlQualified, nodes[1..]);
        assert ([first] + rest)[1..] == rest;
        assert [nodes[0]] + nodes[1..] == nodes;
      } else {
        assert !Plain(nodes[0]);
      }
    }
  }

  // The readers

  datatype Delivery = Got(token: Lexeme) | AtEnd | ForeignRoot(name: QName) | Failed

  /** The expanding source: every token it delivers has been shown to the observer first. */
  class ObservingSource {
    const tokens: seq<Lexeme>
    const reliable: bool           // neither the decoder nor the observer ever fails
    var at: nat
    var failed: bool
    var ended: bool
    var observed: seq<Lexeme>

    ghost predicate Valid()
      reads this
    {
      && at <= |tokens|
      && (!failed ==> observed == tokens[..at] && (ended ==> at == |tokens|))
    }

    ghost function Rest(): seq<Lexeme>
      requires Valid()
      reads this
    {
      tokens[at..]
    }

    constructor (tokens: seq<Lexeme>, reliable: bool)
      ensures Valid() && !failed && this.tokens == tokens && this.reliable == reliable && Rest() == tokens
    {
      this.tokens, this.reliable, at, failed, ended, observed := tokens, reliable, 0, false, false, [];
    }

    method Token() returns (out: Delivery)
      requires Valid()
      modifies this
      ensures Valid() && !out.ForeignRoot?
      ensures out.Got? ==> !failed && old(Rest()) == [out.token] + Rest()
      ensures out.AtEnd? ==> !failed && Rest() == old(Rest()) == []
      ensures (out.Failed? <==> failed) && (old(failed) ==> failed) && |Rest()| <= |old(Rest())|
      ensures reliable && !old(failed) ==> !failed
    {
      if failed {
        return Failed;
      }
      if ended {
        return AtEnd;
      }
      var interrupted: bool := *;
      if interrupted && !reliable {
        failed := true;
        return Failed;
      }
      if at == |tokens| {
        ended := true;
        return AtEnd;
      }
      var token := tokens[at];
      at := at + 1;
      var refused: bool := *;
      if refused && !reliable {
        failed := true;
        return Failed;
      }
      observed := observed + [token];
      return Got(token);
    }

    /** Reads to the end of the element whose start tag was the last token. */
    method Skip(ghost allow: Allow, ghost depth: nat) returns (out: Delivery)
      requires Valid()
      modifies this
      ensures Valid() && !out.ForeignRoot? && |Rest()| <= |old(Rest())|
      ensures !out.Failed? ==> Kept(allow, old(Rest()), true, depth, 1) == Kept(allow, Rest(), true, depth, 0)
      ensures out.Failed? <==> failed
      ensures out.Got? || Rest() == [] || failed
      ensures reliable && !old(failed) ==> !failed
    {
      hide Kept;
      var open := 1;
      out := AtEnd;
      while open > 0
        invariant open >= 0 && Valid() && !out.ForeignRoot? && (failed ==> old(failed) && open == 1)
        invariant |Rest()| <= |old(Rest())|
        invariant !failed ==> Kept(allow, old(Rest()), true, depth, 1) == Kept(allow, Rest(), true, depth, open)
        invariant open == 0 ==> out.Got?
        decreases |Rest()|
      {
        ghost var rest := Rest();
        out := Token();
        if out.Got? {
          KeptStep(allow, out.token, Rest(), true, depth, open);
          if out.token.Start? {
            open := open + 1;
          } else if out.token.End? {
            open := open - 1;
          }
        } else {
          KeptNone(allow);
          return;
        }
      }
    }
  }

  lemma KeptNone(allow: Allow)
    ensures forall started, depth, skip :: Kept(allow, [], started, depth, skip) == []
  {
  }

  class NamespaceFilter {
    const source: ObservingSource
    const allow: Allow
    var started: bool
    var depth: nat

    constructor (source: ObservingSource, allow: Allow)
      ensures this.source == source && this.allow == allow && !started && depth == 0
    {
      this.source, this.allow, started, depth := source, allow, false, 0;
    }

    /** What this filter will still deliver. */
    ghost function Rest(): seq<Lexeme>
      requires source.Valid()
      reads this, source
    {
      Kept(allow, source.Rest(), started, depth, 0)
    }

    method Token() returns (out: Delivery)
      requires source.Valid()
      modifies this, source
      ensures source.Valid()
      ensures out.Got? ==> old(Rest()) == [out.token] + Rest() && |source.Rest()| < |old(source.Rest())|
      ensures out.AtEnd? ==> old(Rest()) == [] && source.Rest() == [] && !source.failed
      ensures out.ForeignRoot? ==> old(Rest()) == [] && !old(started) && out.name.space != ""
      ensures out.Failed? <==> source.failed
      ensures source.reliable && !old(source.failed) ==> !source.failed
      ensures (old(started) ==> started) && (out.Got? && out.token.Start? ==> started)
    {
      hide Kept;
      while true
        invariant source.Valid() && (!source.failed ==> Rest() == old(Rest())) && started == old(started)
        invariant source.failed ==> old(source.failed)
        invariant |source.Rest()| <= |old(source.Rest())|
        decreases |source.Rest()|
      {
        out := source.Token();
        if !out.Got? {
          KeptNone(allow);
          return;
        }
        KeptStep(allow, out.token, source.Rest(), started, depth, 0);
        if started && depth == 0 {
          return;
        }
        match out.token
        case Start(name, attributes) =>
          if !started && name.space != "" {
            return ForeignRoot(name);
          }
          if started && name.space != "" {
            var skipped := source.Skip(allow, depth);
            if skipped.Failed? {
              return Failed;
            }
            if skipped.AtEnd? {
              KeptNone(allow);
              return AtEnd;
            }
          } else {
            started, depth := true, depth + 1;
            var kept := Attributes(name.local, attributes);
            return Got(Start(name, kept));
          }
        case End(_) =>
          depth := if depth == 0 then 0 else depth - 1;
          return;
        case Other(_) =>
          return;
      }
    }

    method Attributes(element: string, attributes: seq<Attribute>) returns (kept: seq<Attribute>)
      ensures kept == Filtered(allow, element, attributes)
    {
      if attributes == [] {
        return [];
      }
      var a := new Attribute[|attributes|](i requires 0 <= i < |attributes| => attributes[i]);
      assert a[..] == attributes;
      var n := FilterInPlace(allow, element, a);
      return a[..n];
    }

    /** Everything the filter delivers until it stops. */
    method ReadAll() returns (delivered: seq<Lexeme>, last: Delivery)
      requires source.Valid()
      modifies this, source
      ensures source.Valid() && !last.Got?
      ensures !last.Failed? ==> delivered == old(Rest())
      ensures last.AtEnd? ==> source.observed == source.tokens
      ensures delivered <= old(Rest())
      ensures last.ForeignRoot? ==> forall i :: 0 <= i < |delivered| ==> !delivered[i].Start?
      ensures source.reliable && !old(source.failed) ==> !last.Failed?
    {
      hide Kept;
      delivered := [];
      while true
        invariant source.Valid() && old(Rest()) == delivered + Rest()
        invariant !started ==> forall i :: 0 <= i < |delivered| ==> !delivered[i].Start?
        invariant source.reliable && !old(source.failed) ==> !source.failed
        decreases |source.Rest()|
      {
        last := Token();
        if !last.Got? {
          return;
        }
        delivered := delivered + [last.token];
      }
    }
  }

  lemma FilteredStep(allow: Allow, element: string, attributes: seq<Attribute>, i: nat)
    requires i <= |attributes|
    ensures i == 0 ==> Filtered(allow, element, attributes[..i]) == []
    ensures i < |attributes| ==>
              Filtered(allow, element, attributes[..i + 1]) ==
              Filtered(allow, element, attributes[..i]) + if Keeps(allow, element, attributes[i]) then [attributes[i]] else []
  {
    if i < |attributes| {
      assert attributes[..i + 1][..i] == attributes[..i];
    }
  }

  /** The retained attributes slide to the front of the same storage. */
  method FilterInPlace(allow: Allow, element: string, a: array<Attribute>) returns (n: nat)
    modifies a
    ensures n <= a.Length && a[..n] == Filtered(allow, element, old(a[..]))
  {
    hide Filtered;
    hide Keeps;
    ghost var was := a[..];
    n := 0;
    FilteredStep(allow, element, was, 0);
    for i := 0 to a.Length
      invariant n <= i && a[..n] == Filtered(allow, element, was[..i])
      invariant forall k :: i <= k < a.Length ==> a[k] == was[k]
    {
      FilteredStep(allow, element, was, i);
      var attribute := a[i];
      if Keeps(allow, element, attribute) {
        a[n] := attribute;
        n := n + 1;
        assert a[..n] == Filtered(allow, element, was[..i]) + [attribute];
      }
    }
    assert was[..a.Length] == was;
  }

  /** The whole of a document: the model sees the pruned tree, the observer every token. */
  method FilterDocument(source: ObservingSource, ghost prolog: seq<Lexeme>, ghost root: Node, ghost tail: seq<Lexeme>)
    returns (delivered: seq<Lexeme>, last: Delivery)
    requires source.Valid() && source.at == 0 && !source.failed
    requires Miscellaneous(prolog) && root.Element? && !Foreign(root)
    requires source.tokens == prolog + Serialize(root) + tail
    modifies source
    ensures delivered <= prolog + Serialize(Prune(MusicXmlQualified, root)) + tail
    ensures last.AtEnd? ==> delivered == prolog + Serialize(Prune(MusicXmlQualified, root)) + tail
    ensures last.AtEnd? ==> source.observed == source.tokens
    ensures last.AtEnd? || last.Failed?
    ensures source.reliable ==> last.AtEnd?
  {
    hide Kept;
    hide Serialize;
    hide Prune;
    DocumentIsPruned(MusicXmlQualified, prolog, root, tail);
    var filter := new NamespaceFilter(source, MusicXmlQualified);
    delivered, last := filter.ReadAll();
    PruneElement(MusicXmlQualified, root);
    SerializeStarts(Prune(MusicXmlQualified, root));
    ghost var expected := prolog + Serialize(Prune(MusicXmlQualified, root)) + tail;
    assert expected[|prolog|].Start?;
  }

  lemma SerializeStarts(node: Node)
    requires node.Element?
    ensures Serialize(node) != [] && Serialize(node)[0].Start?
  {
  }

  lemma PruneElement(allow: Allow, node: Node)
    ensures Prune(allow, node).Element? == node.Element?
  {
  }
}
