/** Opus documents in an MXL package: entries are documents stored inline, links to other opus
    documents and links to scores.  Pointers to documents and to resolved nodes are indices, so
    that sharing and link cycles are visible. */
module OpusGraphs {
  import DocumentDepth
  import opened NestingLevels

  datatype Option<+T> = None | Some(value: T)

  type DocRef = nat

  /** A link with its identity. */
  datatype Link = Link(id: nat, href: string)

  datatype Entry = Entry(opus: Option<DocRef>, link: Option<Link>, score: Option<Link>)

  datatype DocNode = OpusDocument(titled: bool, content: seq<Entry>) | ScoreDocument

  /** Where a link leads inside the archive. */
  datatype Place = Nowhere | Place(path: string, fragment: string)

  datatype Decoding = Undecodable | Decoded(document: DocRef)

  /** The documents that exist or that decoding a resource yields, and how links are read. */
  datatype World = World(arena: seq<DocNode>, library: map<string, Decoding>, locate: (string, string) -> Place, valid: string -> bool)

  ghost predicate Typed(w: World) {
    && (forall d, i :: 0 <= d < |w.arena| && w.arena[d].OpusDocument? && 0 <= i < |w.arena[d].content| ==>
          PointsToOpus(w, w.arena[d].content[i]))
    && (forall p :: p in w.library && w.library[p].Decoded? ==> w.library[p].document < |w.arena|)
    && (forall source, href :: w.locate(source, href).Place? ==> w.valid(w.locate(source, href).path))
  }

  predicate PointsToOpus(w: World, e: Entry) {
    e.opus.Some? ==> e.opus.value < |w.arena| && w.arena[e.opus.value].OpusDocument?
  }

  /** The opus documents as the nesting check sees them. */
  function Held(w: World): (heap: DocumentDepth.Heap)
    ensures Typed(w) ==> DocumentDepth.Closed(heap)
  {
    map d | 0 <= d < |w.arena| && w.arena[d].OpusDocument? :: Outline(w.arena[d])
  }

  function Outline(d: DocNode): DocumentDepth.Document
    requires d.OpusDocument?
  {
    DocumentDepth.Document(d.titled, seq(|d.content|, i requires 0 <= i < |d.content| => Shape(d.content[i])))
  }

  function Shape(e: Entry): DocumentDepth.Content {
    DocumentDepth.Content(if e.opus.Some? then DocumentDepth.To(e.opus.value) else DocumentDepth.Nil, e.link.Some?, e.score.Some?)
  }

  // What the nesting check bounds: elements inside one another in the encoding of a document

  /** An element of the encoding: an opus, its title, or an entry that is a link or a score. */
  datatype Element = Opus(d: DocRef) | Title(d: DocRef) | Leaf(d: DocRef, link: Link)

  predicate IsOpus(w: World, e: Element) {
    e.Opus? && e.d < |w.arena| && w.arena[e.d].OpusDocument?
  }

  /** The second element stands directly in the first, an opus. */
  ghost predicate Contains(w: World, outer: Element, inner: Element)
    requires IsOpus(w, outer)
  {
    match inner
    case Opus(d) => exists e :: e in w.arena[outer.d].content && e.opus == Some(d)
    case Title(d) => d == outer.d && w.arena[d].titled
    case Leaf(d, link) => d == outer.d && exists e :: e in w.arena[d].content && (e.link == Some(link) || e.score == Some(link))
  }

  /** Elements from the root inwards. */
  ghost predicate Nesting(w: World, root: DocRef, elements: seq<Element>) {
    && elements != [] && elements[0] == Opus(root)
    && forall k :: 0 <= k < |elements| - 1 ==> IsOpus(w, elements[k]) && Contains(w, elements[k], elements[k + 1])
  }

  /** The chains of documents stay within their limit exactly if no more than 4096 elements stand
      inside one another. */
  lemma NestingMeans(w: World, root: DocRef)
    requires Typed(w) && IsOpus(w, Opus(root))
    ensures (forall chain :: DocumentDepth.ChainFrom(Held(w), root, chain) ==> DocumentDepth.WithinLimit(Held(w), chain)) <==>
            (forall elements :: Nesting(w, root, elements) ==> |elements| <= 4096)
  {
    hide Nesting;
    hide Typed;
    hide Held;
    hide DocumentDepth.WithinLimit;
    if forall chain :: DocumentDepth.ChainFrom(Held(w), root, chain) ==> DocumentDepth.WithinLimit(Held(w), chain) {
      forall elements | Nesting(w, root, elements)
        ensures |elements| <= 4096
      {
        if |elements| > 4096 {
          TooManyElements(w, root, elements);
        }
      }
    }
    if forall elements :: Nesting(w, root, elements) ==> |elements| <= 4096 {
      forall chain | DocumentDepth.ChainFrom(Held(w), root, chain)
        ensures DocumentDepth.WithinLimit(Held(w), chain)
      {
        if !DocumentDepth.WithinLimit(Held(w), chain) {
          var elements := TooLongChain(w, root, chain);
        }
      }
    }
  }

  lemma HeldChild(w: World, d: DocRef, c: DocRef)
    requires Typed(w) && IsOpus(w, Opus(d))
    ensures d in Held(w)
    ensures c in DocumentDepth.Children(Held(w), d) <==> Contains(w, Opus(d), Opus(c))
    ensures Contains(w, Opus(d), Opus(c)) ==> IsOpus(w, Opus(c))
  {
    var content := w.arena[d].content;
    var shapes := Held(w)[d].content;
    assert forall i :: 0 <= i < |content| ==> shapes[i] == Shape(content[i]);
    if Contains(w, Opus(d), Opus(c)) {
      var e :| e in content && e.opus == Some(c);
      var i :| 0 <= i < |content| && content[i] == e;
      assert shapes[i].opus == DocumentDepth.To(c);
      assert PointsToOpus(w, content[i]);
    }
    if c in DocumentDepth.Children(Held(w), d) {
      var i :| 0 <= i < |shapes| && shapes[i].opus == DocumentDepth.To(c);
      assert content[i] in content && content[i].opus == Some(c);
    }
  }

  lemma HeldLeaf(w: World, d: DocRef)
    requires IsOpus(w, Opus(d))
    ensures d in Held(w)
    ensures DocumentDepth.HasLeaf(Held(w)[d]) <==> exists inner: Element :: !inner.Opus? && Contains(w, Opus(d), inner)
  {
    var content := w.arena[d].content;
    var shapes := Held(w)[d].content;
    assert forall i :: 0 <= i < |content| ==> shapes[i] == Shape(content[i]);
    if DocumentDepth.HasLeaf(Held(w)[d]) {
      if w.arena[d].titled {
        assert Contains(w, Opus(d), Title(d));
      } else {
        var i :| 0 <= i < |shapes| && (shapes[i].hasLink || shapes[i].hasScore);
        assert content[i] in content;
        assert Contains(w, Opus(d), Leaf(d, if content[i].link.Some? then content[i].link.value else content[i].score.value));
      }
    }
    if inner: Element :| !inner.Opus? && Contains(w, Opus(d), inner) {
      if inner.Leaf? {
        var e :| e in content && (e.link == Some(inner.link) || e.score == Some(inner.link));
        var i :| 0 <= i < |content| && content[i] == e;
        assert shapes[i].hasLink || shapes[i].hasScore;
      }
    }
  }

  /** The documents of elements that are all opuses. */
  lemma OpusChain(w: World, root: DocRef, elements: seq<Element>, n: nat) returns (chain: seq<DocRef>)
    requires Typed(w) && Nesting(w, root, elements) && 0 < n <= |elements|
    requires forall k :: 0 <= k < n ==> IsOpus(w, elements[k])
    ensures |chain| == n && DocumentDepth.ChainFrom(Held(w), root, chain)
    ensures elements[n - 1] == Opus(chain[n - 1])
  {
    hide Typed;
    hide Contains;
    hide Held;
    hide DocumentDepth.Children;
    chain := seq(n, k requires 0 <= k < n => elements[k].d);
    forall k | 0 <= k < n
      ensures chain[k] in Held(w) && (k < n - 1 ==> chain[k + 1] in DocumentDepth.Children(Held(w), chain[k]))
    {
      HeldChild(w, chain[k], if k < n - 1 then chain[k + 1] else 0);
    }
  }

  lemma TooManyElements(w: World, root: DocRef, elements: seq<Element>)
    requires Typed(w) && Nesting(w, root, elements) && |elements| > 4096
    ensures exists chain :: DocumentDepth.ChainFrom(Held(w), root, chain) && !DocumentDepth.WithinLimit(Held(w), chain)
  {
    hide Typed;
    hide Contains;
    hide Held;
    hide DocumentDepth.Children;
    var last := elements[4096];
    assert IsOpus(w, elements[4095]) && Contains(w, elements[4095], elements[4095 + 1]);
    if last.Opus? {
      HeldChild(w, elements[4095].d, last.d);
      var chain := OpusChain(w, root, elements, 4097);
      assert !DocumentDepth.WithinLimit(Held(w), chain);
    } else {
      var chain := OpusChain(w, root, elements, 4096);
      HeldLeaf(w, elements[4095].d);
      assert !DocumentDepth.WithinLimit(Held(w), chain);
    }
  }

  lemma ChainNesting(w: World, root: DocRef, chain: seq<DocRef>) returns (elements: seq<Element>)
    requires Typed(w) && DocumentDepth.ChainFrom(Held(w), root, chain)
    ensures |elements| == |chain| && Nesting(w, root, elements)
    ensures elements[|chain| - 1] == Opus(chain[|chain| - 1]) && IsOpus(w, elements[|chain| - 1])
  {
    hide Typed;
    hide Contains;
    hide DocumentDepth.Children;
    elements := seq(|chain|, k requires 0 <= k < |chain| => Opus(chain[k]));
    forall k | 0 <= k < |chain|
      ensures IsOpus(w, elements[k]) && (k < |chain| - 1 ==> Contains(w, elements[k], elements[k + 1]))
    {
      assert chain[k] in Held(w);
      if k < |chain| - 1 {
        assert chain[k + 1] in DocumentDepth.Children(Held(w), chain[k]);
        HeldChild(w, chain[k], chain[k + 1]);
      }
    }
  }

  lemma TooLongChain(w: World, root: DocRef, chain: seq<DocRef>) returns (elements: seq<Element>)
    requires Typed(w) && DocumentDepth.ChainFrom(Held(w), root, chain) && !DocumentDepth.WithinLimit(Held(w), chain)
    ensures Nesting(w, root, elements) && |elements| > 4096
  {
    hide Typed;
    hide Contains;
    hide DocumentDepth.Children;
    elements := ChainNesting(w, root, chain);
    if |chain| == 4096 {
      var last := elements[|chain| - 1];
      HeldLeaf(w, last.d);
      var inner: Element :| !inner.Opus? && Contains(w, last, inner);
      var longer := elements + [inner];
      forall k | 0 <= k < |longer| - 1
        ensures IsOpus(w, longer[k]) && Contains(w, longer[k], longer[k + 1])
      {
        if k < |elements| - 1 {
          assert longer[k] == elements[k] && longer[k + 1] == elements[k + 1];
        }
      }
      elements := longer;
    }
  }

  /** A document that exists; an opus nests at most `bound` deep. */
  ghost predicate Sits(w: World, bound: nat, d: DocRef)
    ensures Sits(w, bound, d) ==> d < |w.arena|
  {
    d < |w.arena| && (w.arena[d].OpusDocument? ==> Nests(Held(w), d, bound))
  }

  /** Decoding yields documents that nest at most `bound` deep. */
  ghost predicate Shallow(w: World, bound: nat) {
    forall p :: p in w.library && w.library[p].Decoded? ==> Sits(w, bound, w.library[p].document)
  }

  lemma InlineSits(w: World, bound: nat, d: DocRef, i: nat)
    requires Typed(w) && Sits(w, bound, d) && w.arena[d].OpusDocument?
    requires i < |w.arena[d].content| && w.arena[d].content[i].opus.Some?
    ensures var c := w.arena[d].content[i].opus.value;
            Sits(w, bound, c) && w.arena[c].OpusDocument? && Level(Held(w), c, bound) < Level(Held(w), d, bound)
  {
    var heap, e := Held(w), w.arena[d].content[i];
    assert PointsToOpus(w, e);
    assert heap[d].content[i] == Shape(e) && heap[d].content[i].opus == DocumentDepth.To(e.opus.value);
    assert e.opus.value in DocumentDepth.Children(heap, d);
    NestsChild(heap, d, e.opus.value, bound);
  }

  // What resolving can run into

  /** The document at a path: the root document, or what decoding the resource yields. */
  function DocAt(w: World, rootPath: string, root: DocRef, path: string): Option<DocRef> {
    if path == rootPath then Some(root)
    else if path in w.library && w.library[path].Decoded? then Some(w.library[path].document)
    else None
  }

  predicate IsOpusDocument(w: World, d: DocRef) {
    d < |w.arena| && w.arena[d].OpusDocument?
  }

  /** An opus document, read under the path of the file that contains it. */
  datatype Site = Site(path: string, document: DocRef)

  /** An entry that leads from one opus document to another, inline or by a link. */
  predicate Leads(w: World, rootPath: string, root: DocRef, from: Site, e: Entry, to: Site) {
    || (e == Entry(Some(to.document), None, None) && from.path == to.path)
    || (&& e.opus.None? && e.link.Some? && e.score.None?
        && w.locate(from.path, e.link.value.href).Place? && w.locate(from.path, e.link.value.href).path == to.path
        && DocAt(w, rootPath, root, to.path) == Some(to.document) && IsOpusDocument(w, to.document))
  }

  ghost predicate Next(w: World, rootPath: string, root: DocRef, from: Site, to: Site) {
    && IsOpusDocument(w, from.document)
    && exists i :: 0 <= i < |w.arena[from.document].content| && Leads(w, rootPath, root, from, w.arena[from.document].content[i], to)
  }

  ghost predicate Tour(w: World, rootPath: string, root: DocRef, sites: seq<Site>) {
    && sites != [] && sites[0] == Site(rootPath, root)
    && forall i :: 0 < i < |sites| ==> Steps(w, rootPath, root, sites, i)
  }

  ghost predicate Steps(w: World, rootPath: string, root: DocRef, sites: seq<Site>, i: nat)
    requires 0 < i < |sites|
  {
    Next(w, rootPath, root, sites[i - 1], sites[i])
  }

  ghost predicate SiteReached(w: World, rootPath: string, root: DocRef, site: Site) {
    exists sites :: Tour(w, rootPath, root, sites) && sites[|sites| - 1] == site
  }

  lemma RootReached(w: World, rootPath: string, root: DocRef)
    ensures SiteReached(w, rootPath, root, Site(rootPath, root))
  {
    assert Tour(w, rootPath, root, [Site(rootPath, root)]);
  }

  lemma NextReached(w: World, rootPath: string, root: DocRef, from: Site, i: nat, to: Site)
    requires SiteReached(w, rootPath, root, from) && IsOpusDocument(w, from.document) && i < |w.arena[from.document].content|
    requires Leads(w, rootPath, root, from, w.arena[from.document].content[i], to)
    ensures SiteReached(w, rootPath, root, to)
  {
    hide Leads;
    var sites :| Tour(w, rootPath, root, sites) && sites[|sites| - 1] == from;
    var longer := sites + [to];
    assert Next(w, rootPath, root, from, to);
    forall j | 0 < j < |longer|
      ensures Steps(w, rootPath, root, longer, j)
    {
      if j < |sites| {
        assert Steps(w, rootPath, root, sites, j) && longer[j - 1] == sites[j - 1] && longer[j] == sites[j];
      }
    }
    assert Tour(w, rootPath, root, longer);
  }

  predicate Unresolvable(w: World, rootPath: string, root: DocRef, path: string, href: string, opus: bool) {
    var place := w.locate(path, href);
    place.Nowhere? || DocAt(w, rootPath, root, place.path).None?
    || IsOpusDocument(w, DocAt(w, rootPath, root, place.path).value) != opus
  }

  /** An entry that cannot be resolved: not exactly one value, a link that leads nowhere, to a
      document that is missing or cannot be decoded, or to one of the other kind. */
  predicate Broken(w: World, rootPath: string, root: DocRef, path: string, e: Entry) {
    || (if e.opus.Some? then 1 else 0) + (if e.link.Some? then 1 else 0) + (if e.score.Some? then 1 else 0) != 1
    || (e.link.Some? && Unresolvable(w, rootPath, root, path, e.link.value.href, true))
    || (e.score.Some? && Unresolvable(w, rootPath, root, path, e.score.value.href, false))
  }

  ghost predicate BrokenAt(w: World, rootPath: string, root: DocRef, site: Site, i: nat) {
    && IsOpusDocument(w, site.document) && i < |w.arena[site.document].content|
    && Broken(w, rootPath, root, site.path, w.arena[site.document].content[i])
  }

  /** Some entry that can be reached from the root document cannot be resolved. */
  ghost predicate Faulty(w: World, rootPath: string, root: DocRef) {
    exists site, i :: SiteReached(w, rootPath, root, site) && BrokenAt(w, rootPath, root, site, i)
  }

  // Resolved graphs

  datatype Content =
    | Inline(node: nat)
    | Linked(link: Link, path: string, fragment: string, target: nat)
    | Scored(link: Link, path: string, fragment: string, document: DocRef)

  datatype ResolvedOpus = ResolvedOpus(path: string, document: DocRef, content: seq<Content>)

  type Documents = map<string, DocRef>

  predicate Reaches(c: Content, k: nat) {
    (c.Inline? && c.node == k) || (c.Linked? && c.target == k)
  }

  predicate Registers(c: Content, path: string) {
    !c.Inline? && c.path == path
  }

  ghost predicate Refs(content: seq<Content>, k: nat) {
    exists i :: 0 <= i < |content| && Reaches(content[i], k)
  }

  ghost predicate DocRefs(content: seq<Content>, path: string) {
    exists i :: 0 <= i < |content| && Registers(content[i], path)
  }

  /** A resolved entry is what its source entry means in the package. */
  predicate Matches(w: World, path: string, source: Entry, c: Content, nodes: seq<ResolvedOpus>, documents: Documents) {
    match c
    case Inline(n) =>
      n < |nodes| && source == Entry(Some(nodes[n].document), None, None) && nodes[n].path == path
    case Linked(link, p, f, t) =>
      && source == Entry(None, Some(link), None) && w.locate(path, link.href) == Place(p, f)
      && t < |nodes| && nodes[t].path == p && w.valid(p) && p in documents && documents[p] == nodes[t].document
    case Scored(link, p, f, d) =>
      && source == Entry(None, None, Some(link)) && w.locate(path, link.href) == Place(p, f)
      && w.valid(p) && p in documents && documents[p] == d && !IsOpusDocument(w, d)
  }

  ghost predicate MatchesAll(w: World, path: string, sources: seq<Entry>, content: seq<Content>, nodes: seq<ResolvedOpus>, documents: Documents) {
    |sources| == |content| && forall i :: 0 <= i < |content| ==> Matches(w, path, sources[i], content[i], nodes, documents)
  }

  ghost predicate SoundNode(w: World, n: ResolvedOpus, nodes: seq<ResolvedOpus>, documents: Documents) {
    && n.document < |w.arena| && w.arena[n.document].OpusDocument?
    && MatchesAll(w, n.path, w.arena[n.document].content, n.content, nodes, documents)
  }

  ghost predicate SoundFrom(w: World, nodes: seq<ResolvedOpus>, lo: nat, documents: Documents) {
    forall k :: lo <= k < |nodes| ==> SoundNode(w, nodes[k], nodes, documents)
  }

  /** Later tables know at least as much. */
  ghost predicate Grown(nodes: seq<ResolvedOpus>, documents: Documents, nodes': seq<ResolvedOpus>, documents': Documents) {
    && |nodes| <= |nodes'|
    && (forall k :: 0 <= k < |nodes| ==> nodes'[k].path == nodes[k].path && nodes'[k].document == nodes[k].document)
    && (forall p :: p in documents ==> p in documents' && documents'[p] == documents[p])
  }

  lemma MatchesGrown(w: World, path: string, sources: seq<Entry>, content: seq<Content>,
                     nodes: seq<ResolvedOpus>, documents: Documents, nodes': seq<ResolvedOpus>, documents': Documents)
    requires MatchesAll(w, path, sources, content, nodes, documents) && Grown(nodes, documents, nodes', documents')
    ensures MatchesAll(w, path, sources, content, nodes', documents')
  {
    forall i | 0 <= i < |content|
      ensures Matches(w, path, sources[i], content[i], nodes', documents')
    {
      assert Matches(w, path, sources[i], content[i], nodes, documents);
    }
  }

  lemma SoundGrown(w: World, nodes: seq<ResolvedOpus>, lo: nat, documents: Documents, nodes': seq<ResolvedOpus>, documents': Documents)
    requires SoundFrom(w, nodes, lo, documents) && Grown(nodes, documents, nodes', documents')
    requires forall k :: lo <= k < |nodes| ==> nodes'[k] == nodes[k]
    requires SoundFrom(w, nodes', |nodes|, documents')
    ensures SoundFrom(w, nodes', lo, documents')
  {
    forall k | lo <= k < |nodes'|
      ensures SoundNode(w, nodes'[k], nodes', documents')
    {
      if k < |nodes| {
        var n := nodes[k];
        assert SoundNode(w, n, nodes, documents);
        MatchesGrown(w, n.path, w.arena[n.document].content, n.content, nodes, documents, nodes', documents');
      }
    }
  }

  // Everything new hangs together

  ghost predicate RefsFrom(nodes: seq<ResolvedOpus>, lo: nat, k: nat)
    requires k <= |nodes|
  {
    exists j :: lo <= j < k && Refs(nodes[j].content, k)
  }

  ghost predicate DocRefsFrom(nodes: seq<ResolvedOpus>, lo: nat, path: string) {
    exists j :: lo <= j < |nodes| && DocRefs(nodes[j].content, path)
  }

  /** Each node from `lo` on is referred to by `content` or by an earlier one of them. */
  ghost predicate Hang(nodes: seq<ResolvedOpus>, lo: nat, content: seq<Content>) {
    forall k :: lo <= k < |nodes| ==> Refs(content, k) || RefsFrom(nodes, lo, k)
  }

  ghost predicate DocsHang(nodes: seq<ResolvedOpus>, lo: nat, content: seq<Content>, before: Documents, documents: Documents) {
    forall p :: p in documents && p !in before ==> DocRefs(content, p) || DocRefsFrom(nodes, lo, p)
  }

  lemma RefsGrow(content: seq<Content>, more: seq<Content>)
    ensures forall k :: Refs(content, k) || Refs(more, k) ==> Refs(content + more, k)
    ensures forall p :: DocRefs(content, p) || DocRefs(more, p) ==> DocRefs(content + more, p)
  {
    var both := content + more;
    forall k | Refs(content, k) || Refs(more, k)
      ensures Refs(both, k)
    {
      if Refs(content, k) {
        var i :| 0 <= i < |content| && Reaches(content[i], k);
        assert both[i] == content[i];
      } else {
        var i :| 0 <= i < |more| && Reaches(more[i], k);
        assert both[|content| + i] == more[i];
      }
    }
    forall p | DocRefs(content, p) || DocRefs(more, p)
      ensures DocRefs(both, p)
    {
      if DocRefs(content, p) {
        var i :| 0 <= i < |content| && Registers(content[i], p);
        assert both[i] == content[i];
      } else {
        var i :| 0 <= i < |more| && Registers(more[i], p);
        assert both[|content| + i] == more[i];
      }
    }
  }

  lemma HangStep(nodes: seq<ResolvedOpus>, lo: nat, content: seq<Content>, nodes': seq<ResolvedOpus>, c: Content)
    requires lo <= |nodes| <= |nodes'| && nodes'[..|nodes|] == nodes
    requires Hang(nodes, lo, content) && Hang(nodes', |nodes|, [c])
    ensures Hang(nodes', lo, content + [c])
  {
    hide Refs;
    RefsGrow(content, [c]);
    forall k | lo <= k < |nodes'|
      ensures Refs(content + [c], k) || RefsFrom(nodes', lo, k)
    {
      if k < |nodes| {
        if !Refs(content, k) {
          assert RefsFrom(nodes, lo, k);
          var j :| lo <= j < k && Refs(nodes[j].content, k);
          assert nodes'[j] == nodes[j];
        }
      } else if !Refs([c], k) {
        assert RefsFrom(nodes', |nodes|, k);
        var j :| |nodes| <= j < k && Refs(nodes'[j].content, k);
      }
    }
  }

  lemma DocsHangStep(nodes: seq<ResolvedOpus>, lo: nat, content: seq<Content>, nodes': seq<ResolvedOpus>, c: Content,
                     before: Documents, documents: Documents, documents': Documents)
    requires lo <= |nodes| <= |nodes'| && nodes'[..|nodes|] == nodes
    requires DocsHang(nodes, lo, content, before, documents) && DocsHang(nodes', |nodes|, [c], documents, documents')
    ensures DocsHang(nodes', lo, content + [c], before, documents')
  {
    hide DocRefs;
    RefsGrow(content, [c]);
    forall p | p in documents' && p !in before
      ensures DocRefs(content + [c], p) || DocRefsFrom(nodes', lo, p)
    {
      if p in documents {
        if !DocRefs(content, p) {
          assert DocRefsFrom(nodes, lo, p);
          var j :| lo <= j < |nodes| && DocRefs(nodes[j].content, p);
          assert nodes'[j] == nodes[j];
        }
      } else if !DocRefs([c], p) {
        assert DocRefsFrom(nodes', |nodes|, p);
        var j :| |nodes| <= j < |nodes'| && DocRefs(nodes'[j].content, p);
      }
    }
  }

  /** Storing the content in its own node: everything after the node now hangs from it. */
  lemma HangFill(nodes: seq<ResolvedOpus>, t: nat, content: seq<Content>, before: Documents, documents: Documents)
    requires t < |nodes| && Hang(nodes, t + 1, content) && DocsHang(nodes, t + 1, content, before, documents)
    ensures var filled := nodes[t := nodes[t].(content := content)];
            && (forall k :: t < k < |nodes| ==> RefsFrom(filled, t, k))
            && (forall p :: p in documents && p !in before ==> DocRefsFrom(filled, t, p))
  {
    hide Refs;
    hide DocRefs;
    var filled := nodes[t := nodes[t].(content := content)];
    forall k | t < k < |nodes|
      ensures RefsFrom(filled, t, k)
    {
      if Refs(content, k) {
        assert Refs(filled[t].content, k);
      } else {
        assert RefsFrom(nodes, t + 1, k);
        var j :| t + 1 <= j < k && Refs(nodes[j].content, k);
        assert filled[j] == nodes[j];
      }
    }
    forall p | p in documents && p !in before
      ensures DocRefsFrom(filled, t, p)
    {
      if DocRefs(content, p) {
        assert DocRefs(filled[t].content, p);
      } else {
        assert DocRefsFrom(nodes, t + 1, p);
        var j :| t + 1 <= j < |nodes| && DocRefs(nodes[j].content, p);
        assert filled[j] == nodes[j];
      }
    }
  }
}
