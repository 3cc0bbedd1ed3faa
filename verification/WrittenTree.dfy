/** Trees of elements and text: what is written of a tree is a document, so reading it gives the
    tree back token by token. */
module WrittenTrees {
  import opened Accounts
  import opened Utf8
  import opened Expansion
  import opened References
  import opened WrittenValues
  import opened Namespaces
  import opened Markup
  import opened WrittenMarkup
  import opened WrittenAttributes
  import opened WrittenDocuments

  datatype Tree = Element(name: Label, pairs: seq<Pair>, children: seq<Tree>) | Words(signs: seq<Sign>)

  // Text is written in chunks, and a reference begins a new one

  function Chunks(signs: seq<Sign>): (items: seq<Item>)
    ensures forall i :: 0 <= i < |items| ==> items[i].TextItem? && items[i].signs != []
    ensures signs != [] ==> items != [] && items[0].signs[0] == signs[0]
  {
    if signs == [] then []
    else
      var rest := Chunks(signs[1..]);
      if rest == [] || !rest[0].signs[0].Itself? then [TextItem([signs[0]])] + rest
      else [TextItem([signs[0]] + rest[0].signs)] + rest[1..]
  }

  /** The signs of some items of text. */
  function AllSigns(items: seq<Item>): seq<Sign> {
    if items == [] then [] else (if items[0].TextItem? then items[0].signs else []) + AllSigns(items[1..])
  }

  lemma SignsFirst(signs: seq<Sign>, tail: seq<Item>)
    ensures AllSigns([TextItem(signs)] + tail) == signs + AllSigns(tail)
  {
    assert ([TextItem(signs)] + tail)[1..] == tail;
  }

  /** The chunks of a text are the text. */
  lemma {:induction false} ChunksSigns(signs: seq<Sign>)
    ensures AllSigns(Chunks(signs)) == signs
    decreases |signs|
  {
    if signs != [] {
      hide AllSigns;
      ChunksSigns(signs[1..]);
      var sign, rest := signs[0], Chunks(signs[1..]);
      assert [sign] + signs[1..] == signs;
      if rest == [] || !rest[0].signs[0].Itself? {
        SignsFirst([sign], rest);
      } else {
        assert rest == [TextItem(rest[0].signs)] + rest[1..];
        SignsFirst(rest[0].signs, rest[1..]);
        SignsFirst([sign] + rest[0].signs, rest[1..]);
        Together(sign, rest[0].signs, AllSigns(rest[1..]));
      }
    }
  }

  lemma Together(sign: Sign, a: seq<Sign>, b: seq<Sign>)
    ensures [sign] + a + b == [sign] + (a + b)
  {
  }

  /** Signs that may be text inside an element: no entities, delimiters as references only, and no
      end of a section among characters that stand for themselves. */
  predicate Textual(signs: seq<Sign>) {
    && (forall i :: 0 <= i < |signs| ==>
          match signs[i]
          case Itself(c) => c != LESS && c != AMPERSAND && IsXmlChar(c)
          case ByReference(form, c) => Forms(form, c)
          case ByEntity(_, _) => false)
    && forall i :: 0 <= i < |signs| - 2 ==>
         !(signs[i] == Itself(CLOSE_BRACKET) && signs[i + 1] == Itself(CLOSE_BRACKET) && signs[i + 2] == Itself(GREATER))
  }

  /** Items of text that can be written one behind the other. */
  ghost predicate Flows(place: Place, items: seq<Item>) {
    items != [] ==>
      && items[0].TextItem? && Writable(place, true, items[0]) && Clean(items[0]) && Textual(items[0].signs)
      && (|items| > 1 ==> Separate(items[0], items[1])) && Flows(place, items[1..])
  }

  lemma {:induction false} ChunksFlow(place: Place, signs: seq<Sign>)
    requires Textual(signs)
    ensures Flows(place, Chunks(signs))
    ensures Chunks(signs) != [] ==> Chunks(signs)[0].signs <= signs
    decreases |signs|
  {
    hide Textual;
    hide Writable;
    hide Clean;
    if signs != [] {
      TextualRest(signs);
      ChunksFlow(place, signs[1..]);
      var all, rest := Chunks(signs), Chunks(signs[1..]);
      if rest == [] || !rest[0].signs[0].Itself? {
        assert all[1..] == rest;
        TextualPart(signs, 1);
        assert signs[..1] == [signs[0]];
        TextualChunk(place, [signs[0]]);
      } else {
        assert all[1..] == rest[1..];
        var first := [signs[0]] + rest[0].signs;
        assert first == signs[..|first|];
        TextualPart(signs, |first|);
        BehindItself(rest[0], place);
        TextualChunk(place, first);
      }
    }
  }

  lemma TextualRest(signs: seq<Sign>)
    requires Textual(signs) && signs != []
    ensures Textual(signs[1..])
  {
    var rest := signs[1..];
    assert forall i :: 0 <= i < |rest| ==> rest[i] == signs[i + 1];
  }

  lemma TextualPart(signs: seq<Sign>, k: nat)
    requires Textual(signs) && k <= |signs|
    ensures Textual(signs[..k])
  {
  }

  lemma BehindItself(item: Item, place: Place)
    requires item.TextItem? && Writable(place, true, item) && item.signs[0].Itself?
    ensures forall i :: 0 <= i < |item.signs| ==> item.signs[i].Itself?
  {
    hide Sectioned;
    hide PlainText;
  }

  lemma {:induction false} SpokenItself(signs: seq<Sign>)
    requires forall i :: 0 <= i < |signs| ==> signs[i].Itself?
    ensures |Spoken(signs, false)| == |signs| && forall i :: 0 <= i < |signs| ==> Spoken(signs, false)[i] == signs[i].c
    decreases |signs|
  {
    if signs != [] {
      SpokenItself(signs[1..]);
    }
  }

  lemma TextualChunk(place: Place, signs: seq<Sign>)
    requires Textual(signs) && signs != [] && forall i :: 0 < i < |signs| ==> signs[i].Itself?
    ensures Writable(place, true, TextItem(signs)) && Clean(TextItem(signs))
  {
    hide Spoken;
    hide PlainText;
    hide Sectioned;
    if signs[0].ByReference? {
      TextualRest(signs);
      PlainChunk(signs[1..]);
    } else {
      PlainChunk(signs);
    }
  }

  lemma PlainChunk(signs: seq<Sign>)
    requires Textual(signs) && forall i :: 0 <= i < |signs| ==> signs[i].Itself?
    ensures PlainText(true, Spoken(signs, false)) && Sectioned(Spoken(signs, false))
  {
    SpokenItself(signs);
    hide Spoken;
    var text := Spoken(signs, false);
    assert forall i :: 0 <= i < |text| ==> signs[i] == Itself(text[i]);
  }

  // Trees as items and as tokens

  function TreeThen(tree: Tree, tail: seq<Item>): seq<Item> {
    match tree
    case Words(signs) => Chunks(signs) + tail
    case Element(name, pairs, children) =>
      if children == [] then [StartItem(name, pairs, [], true)] + tail
      else [StartItem(name, pairs, [], false)] + TreesThen(children, [EndItem(name, [])] + tail)
  }

  function TreesThen(trees: seq<Tree>, tail: seq<Item>): seq<Item> {
    if trees == [] then tail else TreeThen(trees[0], TreesThen(trees[1..], tail))
  }

  function TreeTokens(rules: Rules, tree: Tree): seq<Token> {
    match tree
    case Words(signs) => AllTokens(rules, Chunks(signs))
    case Element(name, pairs, children) =>
      [StartToken(QNameOf(name), AttributesOf(rules, name, pairs))] + TreesTokens(rules, children) + [EndToken(QNameOf(name))]
  }

  function TreesTokens(rules: Rules, trees: seq<Tree>): seq<Token> {
    if trees == [] then [] else TreeTokens(rules, trees[0]) + TreesTokens(rules, trees[1..])
  }

  lemma {:induction false} TokensConcat(rules: Rules, a: seq<Item>, b: seq<Item>)
    ensures AllTokens(rules, a + b) == AllTokens(rules, a) + AllTokens(rules, b)
    decreases |a|
  {
    hide TokensOf;
    if a == [] {
      assert a + b == b;
    } else {
      assert (a + b)[0] == a[0] && (a + b)[1..] == a[1..] + b;
      TokensConcat(rules, a[1..], b);
    }
  }

  lemma ItemsTokens(rules: Rules, item: Item, rest: seq<Item>)
    ensures AllTokens(rules, [item] + rest) == TokensOf(rules, item) + AllTokens(rules, rest)
  {
    assert ([item] + rest)[1..] == rest;
  }

  lemma {:induction false} TreeHasTokens(rules: Rules, tree: Tree, tail: seq<Item>)
    ensures AllTokens(rules, TreeThen(tree, tail)) == TreeTokens(rules, tree) + AllTokens(rules, tail)
    decreases tree
  {
    hide TokensOf;
    hide AllTokens;
    hide AttributesOf;
    match tree {
      case Words(signs) =>
        TokensConcat(rules, Chunks(signs), tail);
      case Element(name, pairs, children) =>
        ElementTokens(rules, name, pairs);
        var q, end := QNameOf(name), [EndItem(name, [])] + tail;
        if children == [] {
          ItemsTokens(rules, StartItem(name, pairs, [], true), tail);
        } else {
          ItemsTokens(rules, StartItem(name, pairs, [], false), TreesThen(children, end));
          TreesHaveTokens(rules, children, end);
          TokensConcat(rules, [EndItem(name, [])], tail);
        }
        Enclose(StartToken(q, AttributesOf(rules, name, pairs)), TreesTokens(rules, children), EndToken(q), AllTokens(rules, tail));
    }
  }

  lemma Enclose(start: Token, inner: seq<Token>, end: Token, tail: seq<Token>)
    ensures [start] + (inner + ([end] + tail)) == [start] + inner + [end] + tail
    ensures [start, end] + tail == [start] + [] + [end] + tail
  {
  }

  lemma ElementTokens(rules: Rules, name: Label, pairs: seq<Pair>)
    ensures var start, end := StartToken(QNameOf(name), AttributesOf(rules, name, pairs)), EndToken(QNameOf(name));
            && TokensOf(rules, StartItem(name, pairs, [], true)) == [start, end] && TokensOf(rules, StartItem(name, pairs, [], false)) == [start]
            && AllTokens(rules, [EndItem(name, [])]) == [end]
  {
    assert [EndItem(name, [])][1..] == [];
  }

  lemma Associate(a: seq<Token>, b: seq<Token>, c: seq<Token>)
    ensures a + b + c == a + (b + c)
  {
  }

  lemma {:induction false} TreesHaveTokens(rules: Rules, trees: seq<Tree>, tail: seq<Item>)
    ensures AllTokens(rules, TreesThen(trees, tail)) == TreesTokens(rules, trees) + AllTokens(rules, tail)
    decreases trees
  {
    hide TreeThen;
    hide TreeTokens;
    hide AllTokens;
    if trees != [] {
      TreeHasTokens(rules, trees[0], TreesThen(trees[1..], tail));
      TreesHaveTokens(rules, trees[1..], tail);
      Associate(TreeTokens(rules, trees[0]), TreesTokens(rules, trees[1..]), AllTokens(rules, tail));
    }
  }

  // Trees that can be written

  /** Tags that may be written, are declared as the rules say and obey the namespace constraints in their scopes,
      text between tags in one piece, and no more than `room` levels of elements. */
  ghost predicate Proper(rules: Rules, store: Store, tree: Tree, scopes: seq<Scope>, room: nat) {
    match tree
    case Words(signs) => signs != [] && Textual(signs)
    case Element(name, pairs, children) =>
      && room > 0 && TagFits(Outside(store), name, pairs, []) && Clean(StartItem(name, pairs, [], false))
      && Governed(Outside(store), rules, name) && TagAllowed(scopes, QNameOf(name), AttributesOf(rules, name, pairs))
      && AllProper(rules, store, children, scopes + [Declared(AttributesOf(rules, name, pairs))], room - 1)
  }

  ghost predicate AllProper(rules: Rules, store: Store, trees: seq<Tree>, scopes: seq<Scope>, room: nat) {
    trees != [] ==>
      && Proper(rules, store, trees[0], scopes, room) && AllProper(rules, store, trees[1..], scopes, room)
      && (|trees| > 1 && trees[0].Words? ==> trees[1].Element?)
  }

  /** Where a document has come to behind an element. */
  function Behind(p: Progress): Progress {
    Progress(p.scopes, p.names, true, p.rootClosed || p.names == [])
  }

  predicate BeginsText(items: seq<Item>) {
    items != [] && items[0].TextItem?
  }

  lemma {:induction false} ChunksStand(rules: Rules, store: Store, items: seq<Item>, tail: seq<Item>, p: Progress, maxDepth: nat)
    requires p.names != [] && Document(rules, store, tail, p, maxDepth) && !BeginsText(tail) && Flows(Outside(store), items)
    ensures Document(rules, store, items + tail, p, maxDepth)
    decreases |items|
  {
    hide Writable;
    hide Document;
    hide Clean;
    hide Textual;
    if items == [] {
      assert items + tail == tail;
    } else {
      var all := items + tail;
      assert all[0] == items[0] && all[1..] == items[1..] + tail;
      ChunksStand(rules, store, items[1..], tail, p, maxDepth);
      TextAfter(rules, items[0], p);
      assert |all| > 1 ==> all[1] == if |items| > 1 then items[1] else tail[0];
      DocumentFold(rules, store, all, p, maxDepth);
    }
  }

  lemma TextAfter(rules: Rules, item: Item, p: Progress)
    requires item.TextItem?
    ensures Afterwards(p, TokensOf(rules, item)) == p
  {
    assert TokensOf(rules, item)[1..] == [];
  }

  lemma EndAfter(p: Progress, name: Label, attributes: seq<Attribute>)
    requires |p.names| == |p.scopes|
    ensures After(After(p, StartToken(QNameOf(name), attributes)), EndToken(QNameOf(name))) == Behind(p)
  {
    hide Declared;
    hide QNameOf;
    var q := QNameOf(name);
    assert (p.names + [q])[..|p.names|] == p.names && (p.scopes + [Declared(attributes)])[..|p.scopes|] == p.scopes;
  }

  /** What is written of a tree is a document wherever the tree may stand. */
  lemma {:induction false} TreeStands(rules: Rules, store: Store, tree: Tree, tail: seq<Item>, p: Progress, maxDepth: nat)
    requires |p.names| == |p.scopes| <= maxDepth && !p.rootClosed && Proper(rules, store, tree, p.scopes, maxDepth - |p.names|)
    requires Document(rules, store, tail, Behind(p), maxDepth)
    requires tree.Words? ==> p.names != [] && p.seenRoot && !BeginsText(tail)
    ensures Document(rules, store, TreeThen(tree, tail), p, maxDepth)
    decreases tree
  {
    hide Document;
    hide TagFits;
    hide TagAllowed;
    hide Declared;
    hide Textual;
    hide Flows;
    match tree {
      case Words(signs) =>
        ChunksFlow(Outside(store), signs);
        assert Behind(p) == p;
        ChunksStand(rules, store, Chunks(signs), tail, p, maxDepth);
      case Element(name, pairs, children) =>
        ElementStands(rules, store, name, pairs, children, tail, p, maxDepth);
    }
  }

  lemma ElementStands(rules: Rules, store: Store, name: Label, pairs: seq<Pair>, children: seq<Tree>, tail: seq<Item>, p: Progress, maxDepth: nat)
    requires |p.names| == |p.scopes| <= maxDepth && !p.rootClosed
    requires Proper(rules, store, Element(name, pairs, children), p.scopes, maxDepth - |p.names|)
    requires Document(rules, store, tail, Behind(p), maxDepth)
    ensures Document(rules, store, TreeThen(Element(name, pairs, children), tail), p, maxDepth)
    decreases children, 1
  {
    hide Document;
    hide TagAllowed;
    hide Declared;
    hide AttributesOf;
    hide AllFit;
    hide IsNCName;
    var all := TreeThen(Element(name, pairs, children), tail);
    var item := StartItem(name, pairs, [], children == []);
    var p' := After(p, StartToken(QNameOf(name), AttributesOf(rules, name, pairs)));
    EndAfter(p, name, AttributesOf(rules, name, pairs));
    ItemAfter(rules, item, p);
    ElementTokens(rules, name, pairs);
    assert all[0] == item;
    if children == [] {
      assert all[1..] == tail;
    } else {
      var end := [EndItem(name, [])] + tail;
      assert end[1..] == tail;
      ItemAfter(rules, EndItem(name, []), p');
      DocumentFold(rules, store, end, p', maxDepth);
      TreesStand(rules, store, children, end, p', maxDepth);
      assert all[1..] == TreesThen(children, end);
    }
    DocumentFold(rules, store, all, p, maxDepth);
  }

  lemma DocumentFold(rules: Rules, store: Store, items: seq<Item>, p: Progress, maxDepth: nat)
    requires items != [] && Writable(Outside(store), p.names != [], items[0]) && Clean(items[0]) && Stands(rules, items[0], p, maxDepth)
    requires items[0].StartItem? ==> Governed(Outside(store), rules, items[0].name)
    requires |items| > 1 ==> Separate(items[0], items[1])
    requires Document(rules, store, items[1..], Afterwards(p, TokensOf(rules, items[0])), maxDepth)
    ensures Document(rules, store, items, p, maxDepth)
  {
  }

  lemma {:induction false} TreesStand(rules: Rules, store: Store, trees: seq<Tree>, tail: seq<Item>, p: Progress, maxDepth: nat)
    requires |p.names| == |p.scopes| <= maxDepth && p.names != [] && p.seenRoot && !p.rootClosed
    requires AllProper(rules, store, trees, p.scopes, maxDepth - |p.names|) && Document(rules, store, tail, p, maxDepth) && !BeginsText(tail)
    ensures Document(rules, store, TreesThen(trees, tail), p, maxDepth)
    ensures trees != [] && trees[0].Element? ==> !BeginsText(TreesThen(trees, tail))
    decreases trees, 0
  {
    hide Document;
    hide Proper;
    if trees != [] {
      TreesStand(rules, store, trees[1..], tail, p, maxDepth);
      assert Behind(p) == p;
      assert trees[0].Words? && |trees| > 1 ==> trees[1..][0].Element?;
      TreeStands(rules, store, trees[0], TreesThen(trees[1..], tail), p, maxDepth);
    }
  }

  /** Any text of XML characters can be written, each delimiter by its number. */
  function Signs(text: seq<Rune>): (signs: seq<Sign>)
    ensures |signs| == |text|
  {
    seq(|text|, i requires 0 <= i < |text| =>
      if text[i] == LESS || text[i] == AMPERSAND || text[i] == GREATER then ByReference(ByNumber(Numbered(0, true, [])), text[i]) else Itself(text[i]))
  }

  lemma {:induction false} SignsSpoken(text: seq<Rune>)
    ensures Spoken(Signs(text), false) == text
    decreases |text|
  {
    if text != [] {
      SignsSpoken(text[1..]);
      assert Signs(text)[1..] == Signs(text[1..]) && [text[0]] + text[1..] == text;
    }
  }

  lemma TextIsProper(rules: Rules, store: Store, text: seq<Rune>, room: nat)
    requires text != [] && Characters(text) && room > 0
    requires [0x61] !in rules && Declarations(store, [0x61]) == []
    ensures Proper(rules, store, Element(Label([], [0x61]), [], [Words(Signs(text))]), [], room)
    ensures Spoken(Signs(text), false) == text
  {
    hide Declared;
    hide Textual;
    hide Signs;
    hide TagFits;
    hide TagAllowed;
    hide Governed;
    hide Clean;
    hide AttributesOf;
    SignsSpoken(text);
    TextualSigns(text);
    assert Signs(text) != [] by {
      assert |Signs(text)| == |text|;
    }
    RootStands(rules, store);
    assert [Words(Signs(text))][1..] == [];
    assert AllProper(rules, store, [Words(Signs(text))], [] + [Declared(AttributesOf(rules, Label([], [0x61]), []))], room - 1);
  }

  lemma RootStands(rules: Rules, store: Store)
    requires [0x61] !in rules && Declarations(store, [0x61]) == []
    ensures var name := Label([], [0x61]);
            && TagFits(Outside(store), name, [], []) && Clean(StartItem(name, [], [], false)) && Governed(Outside(store), rules, name)
            && TagAllowed([], QNameOf(name), AttributesOf(rules, name, []))
  {
    var name := Label([], [0x61]);
    assert QNameOf(name).space == "" && AttributesOf(rules, name, []) == [];
  }

  lemma TextualSigns(text: seq<Rune>)
    requires Characters(text)
    ensures Textual(Signs(text))
  {
  }

  /** Reading what was written of a tree gives the tree back: the start of each element with its
      attributes, what is inside it, and its end. */
  method ReadTree(account: Account, store: Store, ghost rules: Rules, maxAttributes: nat, maxDepth: nat, tree: Tree) returns (tokens: seq<Token>)
    requires account.ample && tree.Element? && Proper(rules, store, tree, [], maxDepth)
    modifies account
    ensures tokens == TreeTokens(rules, tree) + [EndOfDocument]
    ensures account.usage.buffered == old(account.usage.buffered)
  {
    hide Document;
    hide Proper;
    hide AllTokens;
    hide TreeThen;
    hide TreeTokens;
    var start := Progress([], [], false, false);
    RootEnds(rules, store, maxDepth);
    TreeStands(rules, store, tree, [], start, maxDepth);
    TreeHasTokens(rules, tree, []);
    TokensUnfold(rules, []);
    assert TreeTokens(rules, tree) + [] == TreeTokens(rules, tree);
    tokens := ReadBack(account, store, rules, maxDepth, maxAttributes, TreeThen(tree, []));
  }

  lemma RootEnds(rules: Rules, store: Store, maxDepth: nat)
    ensures Document(rules, store, [], Behind(Progress([], [], false, false)), maxDepth)
  {
  }
}
