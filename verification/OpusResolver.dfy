/** The memoizing resolver of opus links, and the walk that collects the documents of a resolved
    graph again. */
module OpusResolvers {
  import opened FiniteSets
  import opened OpusGraphs
  import opened NestingLevels
  import DocumentDepth

  type Memo = map<string, nat>

  /** Links to a path all lead to the one node remembered for it. */
  ghost predicate Single(content: seq<Content>, opuses: Memo) {
    forall i :: 0 <= i < |content| && content[i].Linked? ==> SingleAt(content[i], opuses)
  }

  predicate SingleAt(c: Content, opuses: Memo) {
    c.Linked? ==> c.path in opuses && opuses[c.path] == c.target
  }

  ghost predicate SingleFrom(nodes: seq<ResolvedOpus>, lo: nat, opuses: Memo) {
    forall k :: lo <= k < |nodes| ==> Single(nodes[k].content, opuses)
  }

  ghost predicate MemoGrown(opuses: Memo, opuses': Memo) {
    forall p :: p in opuses ==> p in opuses' && opuses'[p] == opuses[p]
  }

  lemma SingleGrown(nodes: seq<ResolvedOpus>, lo: nat, opuses: Memo, nodes': seq<ResolvedOpus>, opuses': Memo)
    requires lo <= |nodes| <= |nodes'| && nodes'[..|nodes|] == nodes && MemoGrown(opuses, opuses')
    requires SingleFrom(nodes, lo, opuses) && SingleFrom(nodes', |nodes|, opuses')
    ensures SingleFrom(nodes', lo, opuses')
  {
    forall k | lo <= k < |nodes'|
      ensures Single(nodes'[k].content, opuses')
    {
      if k < |nodes| {
        assert nodes'[k] == nodes[k];
        assert Single(nodes[k].content, opuses);
      }
    }
  }

  lemma MemoUses(all: set<string>, opuses: Memo, p: string, t: nat)
    requires p in all && p !in opuses
    ensures |all - opuses[p := t].Keys| < |all - opuses.Keys|
  {
    assert opuses[p := t].Keys == opuses.Keys + {p};
    OneFewer(all, opuses.Keys, p);
  }

  /** Everything the resolver has found out. */
  datatype Tables = Tables(nodes: seq<ResolvedOpus>, documents: Documents, opuses: Memo)

  ghost predicate Remembered(t: Tables, p: string)
    requires p in t.opuses
  {
    && p in t.documents && t.opuses[p] < |t.nodes|
    && t.nodes[t.opuses[p]].path == p && t.nodes[t.opuses[p]].document == t.documents[p]
  }

  ghost predicate Coherent(w: World, rootPath: string, bound: nat, t: Tables) {
    && (forall p :: p in t.documents ==> Known(w, rootPath, p) && Sits(w, bound, t.documents[p]))
    && (forall p :: p in t.opuses ==> Remembered(t, p))
  }

  /** The table holds what is at each path. */
  ghost predicate Located(w: World, rootPath: string, root: DocRef, documents: Documents) {
    && rootPath in documents
    && forall p :: p in documents ==> DocAt(w, rootPath, root, p) == Some(documents[p])
  }

  ghost predicate Known(w: World, rootPath: string, p: string) {
    (p == rootPath || p in w.library) && w.valid(p)
  }

  lemma CoherentAt(w: World, rootPath: string, bound: nat, t: Tables, p: string)
    requires Coherent(w, rootPath, bound, t)
    ensures p in t.documents ==> Known(w, rootPath, p) && Sits(w, bound, t.documents[p])
    ensures p in t.opuses ==> Remembered(t, p)
  {
  }

  lemma CoherentDocument(w: World, rootPath: string, bound: nat, t: Tables, p: string, d: DocRef)
    requires Coherent(w, rootPath, bound, t) && Known(w, rootPath, p) && Sits(w, bound, d) && p !in t.documents
    ensures Coherent(w, rootPath, bound, t.(documents := t.documents[p := d]))
  {
    forall q | q in t.opuses
      ensures Remembered(t.(documents := t.documents[p := d]), q)
    {
      assert Remembered(t, q);
    }
  }

  lemma CoherentNodes(w: World, rootPath: string, bound: nat, t: Tables, nodes: seq<ResolvedOpus>)
    requires Coherent(w, rootPath, bound, t) && Grown(t.nodes, t.documents, nodes, t.documents)
    ensures Coherent(w, rootPath, bound, t.(nodes := nodes))
  {
    forall q | q in t.opuses
      ensures Remembered(t.(nodes := nodes), q)
    {
      assert Remembered(t, q);
    }
  }

  lemma CoherentMemo(w: World, rootPath: string, bound: nat, t: Tables, p: string, k: nat)
    requires Coherent(w, rootPath, bound, t) && p in t.documents
    requires k < |t.nodes| && t.nodes[k].path == p && t.nodes[k].document == t.documents[p]
    ensures Coherent(w, rootPath, bound, t.(opuses := t.opuses[p := k]))
  {
    var t' := t.(opuses := t.opuses[p := k]);
    forall q | q in t'.opuses
      ensures Remembered(t', q)
    {
      assert q == p || Remembered(t, q);
    }
  }

  ghost predicate Later(a: Tables, b: Tables) {
    && Grown(a.nodes, a.documents, b.nodes, b.documents) && MemoGrown(a.opuses, b.opuses)
    && b.nodes[..|a.nodes|] == a.nodes
  }

  /** What resolving adds to the tables: sound nodes, one per path, all hanging from `content`. */
  ghost predicate Adds(w: World, a: Tables, b: Tables, content: seq<Content>) {
    && Later(a, b)
    && SoundFrom(w, b.nodes, |a.nodes|, b.documents) && SingleFrom(b.nodes, |a.nodes|, b.opuses)
    && Hang(b.nodes, |a.nodes|, content) && DocsHang(b.nodes, |a.nodes|, content, a.documents, b.documents)
  }

  lemma LaterTransitive(a: Tables, b: Tables, c: Tables)
    requires Later(a, b) && Later(b, c)
    ensures Later(a, c)
  {
    assert c.nodes[..|a.nodes|] == c.nodes[..|b.nodes|][..|a.nodes|] == a.nodes;
  }

  lemma AddsNothing(w: World, t: Tables)
    ensures Adds(w, t, t, [])
  {
    assert t.nodes[..|t.nodes|] == t.nodes;
  }

  lemma AddsStep(w: World, a: Tables, b: Tables, c: Tables, content: seq<Content>, entry: Content)
    requires Adds(w, a, b, content) && Adds(w, b, c, [entry])
    ensures Adds(w, a, c, content + [entry])
  {
    hide Hang;
    hide DocsHang;
    hide SoundFrom;
    hide SingleFrom;
    LaterTransitive(a, b, c);
    NodesKept(b, c);
    SoundGrown(w, b.nodes, |a.nodes|, b.documents, c.nodes, c.documents);
    SingleGrown(b.nodes, |a.nodes|, b.opuses, c.nodes, c.opuses);
    HangStep(b.nodes, |a.nodes|, content, c.nodes, entry);
    DocsHangStep(b.nodes, |a.nodes|, content, c.nodes, entry, a.documents, b.documents, c.documents);
  }

  lemma NodesKept(a: Tables, b: Tables)
    requires Later(a, b)
    ensures forall k :: 0 <= k < |a.nodes| ==> b.nodes[k] == a.nodes[k]
  {
    forall k | 0 <= k < |a.nodes|
      ensures b.nodes[k] == a.nodes[k]
    {
      assert b.nodes[..|a.nodes|][k] == b.nodes[k];
    }
  }

  /** Storing content in the node that was created for it. */
  lemma AddsFill(w: World, a: Tables, b: Tables, c: Tables, path: string, document: DocRef, content: seq<Content>, entry: Content)
    requires document < |w.arena| && w.arena[document].OpusDocument?
    requires b == a.(nodes := a.nodes + [ResolvedOpus(path, document, [])], opuses := b.opuses) && MemoGrown(a.opuses, b.opuses)
    requires Adds(w, b, c, content) && Single(content, c.opuses)
    requires MatchesAll(w, path, w.arena[document].content, content, c.nodes, c.documents)
    requires Reaches(entry, |a.nodes|)
    ensures |a.nodes| < |c.nodes|
    ensures Adds(w, a, c.(nodes := c.nodes[|a.nodes| := ResolvedOpus(path, document, content)]), [entry])
  {
    hide Hang;
    hide DocsHang;
    hide Matches;
    var t := |a.nodes|;
    NodesKept(b, c);
    assert c.nodes[t] == b.nodes[t] == ResolvedOpus(path, document, []);
    var d := c.(nodes := c.nodes[t := ResolvedOpus(path, document, content)]);
    assert Grown(c.nodes, c.documents, d.nodes, d.documents);
    forall k | t <= k < |d.nodes|
      ensures SoundNode(w, d.nodes[k], d.nodes, d.documents) && Single(d.nodes[k].content, d.opuses)
    {
      if k > t {
        assert SoundNode(w, c.nodes[k], c.nodes, c.documents) && Single(c.nodes[k].content, c.opuses);
      }
      MatchesGrown(w, d.nodes[k].path, w.arena[d.nodes[k].document].content, d.nodes[k].content, c.nodes, c.documents, d.nodes, d.documents);
    }
    AddsFillHang(a, c, t, path, document, content, entry);
    assert forall k :: 0 <= k < t ==> a.nodes[k] == b.nodes[k] == d.nodes[k];
    assert d.nodes[..t] == a.nodes;
  }

  lemma AddsFillHang(a: Tables, c: Tables, t: nat, path: string, document: DocRef, content: seq<Content>, entry: Content)
    requires t < |c.nodes| && c.nodes[t] == ResolvedOpus(path, document, []) && Reaches(entry, t)
    requires Hang(c.nodes, t + 1, content) && DocsHang(c.nodes, t + 1, content, a.documents, c.documents)
    ensures var filled := c.nodes[t := ResolvedOpus(path, document, content)];
            Hang(filled, t, [entry]) && DocsHang(filled, t, [entry], a.documents, c.documents)
  {
    HangFill(c.nodes, t, content, a.documents, c.documents);
    assert [entry][0] == entry;
    assert Refs([entry], t);
  }

  /** Only where an entry leads matters, not how it is written. */
  lemma AddsVia(w: World, a: Tables, b: Tables, target: nat, entry: Content)
    requires Adds(w, a, b, [Inline(target)]) && Reaches(entry, target)
    ensures Adds(w, a, b, [entry])
  {
    forall k | |a.nodes| <= k < |b.nodes| && Refs([Inline(target)], k)
      ensures Refs([entry], k)
    {
      assert Reaches([entry][0], k);
    }
    assert forall p :: !DocRefs([Inline(target)], p);
  }

  /** A document loaded for an entry that registers it. */
  lemma AddsLoaded(w: World, a: Tables, loaded: Tables, b: Tables, entry: Content)
    requires loaded == a.(documents := loaded.documents) && Adds(w, loaded, b, [entry]) && !entry.Inline?
    requires forall p :: p in a.documents ==> p in loaded.documents && loaded.documents[p] == a.documents[p]
    requires forall p :: p in loaded.documents && p !in a.documents ==> p == entry.path
    ensures Adds(w, a, b, [entry])
  {
    assert Registers([entry][0], entry.path);
  }

  class Resolver {
    const w: World
    const rootPath: string
    ghost const root: DocRef
    ghost const bound: nat         // how deep inline documents can nest
    var documents: Documents
    var opuses: Memo
    var nodes: seq<ResolvedOpus>

    ghost function Now(): Tables
      reads this
    {
      Tables(nodes, documents, opuses)
    }

    ghost predicate Valid()
      reads this
    {
      && Typed(w) && Shallow(w, bound)
      && Coherent(w, rootPath, bound, Now()) && Located(w, rootPath, root, documents)
    }

    ghost predicate AtFault() {
      Faulty(w, rootPath, root)
    }

    ghost predicate Stands(path: string, document: DocRef) {
      SiteReached(w, rootPath, root, Site(path, document))
    }

    /** Paths that have no resolved opus yet. */
    ghost function Unused(): nat
      reads this`opuses
    {
      |Paths() - opuses.Keys|
    }

    ghost function Paths(): set<string> {
      w.library.Keys + {rootPath}
    }

    ghost function Height(d: DocRef): nat {
      Level(Held(w), d, bound)
    }

    predicate IsOpus(d: DocRef) {
      d < |w.arena| && w.arena[d].OpusDocument?
    }

    constructor (w: World, rootPath: string, root: DocRef, ghost bound: nat)
      requires Typed(w) && Shallow(w, bound) && w.valid(rootPath) && Sits(w, bound, root)
      ensures Valid() && this.w == w && this.rootPath == rootPath && this.root == root
      ensures documents == map[rootPath := root] && opuses == map[] && nodes == []
    {
      this.w, this.rootPath, this.root, this.bound := w, rootPath, root, bound;
      documents, opuses, nodes := map[rootPath := root], map[], [];
    }

    /** The document at a path, decoded at most once. */
    method LoadDocument(path: string) returns (out: Option<DocRef>)
      requires Valid() && w.valid(path)
      modifies this`documents
      ensures Valid()
      ensures out.Some? ==> path in documents && documents[path] == out.value < |w.arena|
      ensures out.Some? ==> documents == old(documents)[path := out.value]
      ensures path in old(documents) ==> out.Some? && documents == old(documents)
      ensures out == DocAt(w, rootPath, root, path)
    {
      hide Coherent;
      hide Sits;
      CoherentAt(w, rootPath, bound, Now(), path);
      if path in documents {
        return Some(documents[path]);
      }
      if path !in w.library || w.library[path].Undecodable? {
        return None;
      }
      CoherentDocument(w, rootPath, bound, Now(), path, w.library[path].document);
      documents := documents[path := w.library[path].document];
      return Some(documents[path]);
    }

    method Create(path: string, document: DocRef)
      requires Valid()
      modifies this`nodes
      ensures Valid() && nodes == old(nodes) + [ResolvedOpus(path, document, [])]
    {
      hide Located;
      hide Sits;
      hide Typed;
      hide Shallow;
      hide Coherent;
      CoherentNodes(w, rootPath, bound, Now(), nodes + [ResolvedOpus(path, document, [])]);
      nodes := nodes + [ResolvedOpus(path, document, [])];
    }

    method Remember(path: string, t: nat)
      requires Valid() && path in documents && path !in opuses
      requires t < |nodes| && nodes[t].path == path && nodes[t].document == documents[path]
      modifies this`opuses
      ensures Valid() && opuses == old(opuses)[path := t] && Unused() < old(Unused())
    {
      hide Located;
      hide Sits;
      hide Paths;
      hide Typed;
      hide Shallow;
      hide Coherent;
      hide Known;
      CoherentAt(w, rootPath, bound, Now(), path);
      KnownPath(path);
      MemoUses(Paths(), opuses, path, t);
      CoherentMemo(w, rootPath, bound, Now(), path, t);
      opuses := opuses[path := t];
    }

    lemma KnownPath(path: string)
      requires Known(w, rootPath, path)
      ensures path in Paths()
    {
    }

    /** One node per archive path, also where links lead back to a document being resolved. */
    method ResolveOpus(path: string, document: DocRef) returns (out: Option<nat>)
      requires Valid() && path in documents && documents[path] == document && IsOpus(document) && Stands(path, document)
      modifies this
      ensures out.None? ==> AtFault()
      ensures out.Some? ==> Valid() && path in opuses && opuses[path] == out.value && Remembered(Now(), path)
      ensures out.Some? ==> Adds(w, old(Now()), Now(), [Inline(out.value)])
      decreases Unused(), 0, 0
    {
      hide Located;
      hide SiteReached;
      hide Faulty;
      hide Sits;
      hide Coherent;
      hide Typed;
      hide Shallow;
      hide MatchesAll;
      hide Single;
      hide Unused;
      hide Adds;
      ghost var a := Now();
      CoherentAt(w, rootPath, bound, Now(), path);
      if path in opuses {
        AddsNone(w, a, Inline(opuses[path]));
        return Some(opuses[path]);
      }
      var t := |nodes|;
      Create(path, document);
      Remember(path, t);
      ghost var b := Now();
      var content := ResolveContent(path, document);
      if content.None? {
        return None;
      }
      Fill(t, a, b, path, document, content.value);
      CoherentAt(w, rootPath, bound, Now(), path);
      return Some(t);
    }

    /** Inline documents share their parent's path and are never remembered. */
    method ResolveInline(path: string, document: DocRef) returns (out: Option<nat>)
      requires Valid() && IsOpus(document) && Sits(w, bound, document) && Stands(path, document)
      modifies this
      ensures out.None? ==> AtFault()
      ensures out.Some? ==> Valid() && out.value < |nodes| && nodes[out.value].path == path && nodes[out.value].document == document
      ensures out.Some? ==> Adds(w, old(Now()), Now(), [Inline(out.value)])
      decreases Unused(), Height(document) + 1, 2
    {
      hide Located;
      hide SiteReached;
      hide Faulty;
      hide Sits;
      hide Coherent;
      hide Typed;
      hide Shallow;
      hide MatchesAll;
      hide Single;
      hide Unused;
      hide Adds;
      ghost var a := Now();
      var t := |nodes|;
      Create(path, document);
      ghost var b := Now();
      var content := ResolveContent(path, document);
      if content.None? {
        return None;
      }
      Fill(t, a, b, path, document, content.value);
      return Some(t);
    }

    method Fill(t: nat, ghost a: Tables, ghost b: Tables, path: string, document: DocRef, content: seq<Content>)
      requires Valid() && IsOpus(document) && t == |a.nodes|
      requires b == a.(nodes := a.nodes + [ResolvedOpus(path, document, [])], opuses := b.opuses) && MemoGrown(a.opuses, b.opuses)
      requires Adds(w, b, Now(), content) && Single(content, opuses)
      requires MatchesAll(w, path, w.arena[document].content, content, nodes, documents)
      modifies this`nodes
      ensures Valid() && |a.nodes| < |nodes| && nodes[|a.nodes|] == ResolvedOpus(path, document, content)
      ensures Adds(w, a, Now(), [Inline(|a.nodes|)])
    {
      hide Located;
      hide SiteReached;
      hide Faulty;
      hide Sits;
      hide Coherent;
      hide SoundFrom;
      hide SingleFrom;
      hide Hang;
      hide DocsHang;
      ghost var c := Now();
      AddsFill(w, a, b, c, path, document, content, Inline(t));
      NodesKept(b, c);
      assert nodes[t] == b.nodes[t];
      CoherentNodes(w, rootPath, bound, c, nodes[t := ResolvedOpus(path, document, content)]);
      nodes := nodes[t := ResolvedOpus(path, document, content)];
    }

    method ResolveContent(path: string, document: DocRef) returns (out: Option<seq<Content>>)
      requires Valid() && IsOpus(document) && Sits(w, bound, document) && Stands(path, document)
      modifies this
      ensures out.None? ==> AtFault()
      ensures out.Some? ==> Valid() && Adds(w, old(Now()), Now(), out.value)
      ensures out.Some? ==> MatchesAll(w, path, w.arena[document].content, out.value, nodes, documents) && Single(out.value, opuses)
      ensures out.Some? ==> MemoGrown(old(opuses), opuses)
      decreases Unused(), Height(document) + 1, 1
    {
      hide Located;
      hide SiteReached;
      hide Faulty;
      hide Sits;
      hide Coherent;
      hide Adds;
      hide Matches;
      var values := w.arena[document].content;
      var result: seq<Content> := [];
      AddsNothing(w, Now());
      for i := 0 to |values|
        invariant Valid() && |result| == i && Adds(w, old(Now()), Now(), result)
        invariant MatchesAll(w, path, values[..i], result, nodes, documents) && Single(result, opuses)
      {
        AddsFewer(w, old(Now()), Now(), result, Paths());
        ghost var b := Now();
        var entry := ResolveEntry(path, document, i);
        if entry.None? {
          return None;
        }
        AddsStep(w, old(Now()), b, Now(), result, entry.value);
        ContentStep(w, path, values, result, b, Now(), entry.value);
        result := result + [entry.value];
      }
      assert values[..|values|] == values;
      AddsFewer(w, old(Now()), Now(), result, {});
      return Some(result);
    }

    method ResolveEntry(path: string, document: DocRef, i: nat) returns (out: Option<Content>)
      requires Valid() && IsOpus(document) && Sits(w, bound, document) && Stands(path, document) && i < |w.arena[document].content|
      modifies this
      ensures out.None? ==> AtFault()
      ensures out.Some? ==> Valid() && Adds(w, old(Now()), Now(), [out.value])
      ensures out.Some? ==> Matches(w, path, w.arena[document].content[i], out.value, nodes, documents) && SingleAt(out.value, opuses)
      decreases Unused(), Height(document) + 1, 0
    {
      hide Located;
      hide SiteReached;
      hide Faulty;
      hide Held;
      hide Level;
      hide Shallow;
      hide Typed;
      hide Unused;
      hide Sits;
      hide Coherent;
      hide Adds;
      var value := w.arena[document].content[i];
      if value.opus.Some? {
        InlineSits(w, bound, document, i);
      }
      var selected := (if value.opus.Some? then 1 else 0) + (if value.link.Some? then 1 else 0) + (if value.score.Some? then 1 else 0);
      if selected != 1 {
        Blame(path, document, i);
        return None;
      }
      if value.opus.Some? {
        NextReached(w, rootPath, root, Site(path, document), i, Site(path, value.opus.value));
        var node := ResolveInline(path, value.opus.value);
        return if node.Some? then Some(Inline(node.value)) else None;
      }
      if value.link.Some? {
        out := ResolveLink(path, value.link.value, document, i);
        return;
      }
      out := ResolveScore(path, value.score.value, document, i);
    }

    method ResolveLink(path: string, link: Link, ghost document: DocRef, ghost i: nat) returns (out: Option<Content>)
      requires Valid() && Stands(path, document) && IsOpus(document) && i < |w.arena[document].content|
      requires w.arena[document].content[i] == Entry(None, Some(link), None)
      modifies this
      ensures out.None? ==> AtFault()
      ensures out.Some? ==> Valid() && Adds(w, old(Now()), Now(), [out.value])
      ensures out.Some? ==> Matches(w, path, Entry(None, Some(link), None), out.value, nodes, documents) && SingleAt(out.value, opuses)
      decreases Unused(), 0, 1
    {
      hide Located;
      hide SiteReached;
      hide Faulty;
      hide Sits;
      hide Coherent;
      hide Typed;
      hide Shallow;
      hide Unused;
      hide Adds;
      ghost var a := Now();
      var place := w.locate(path, link.href);
      if place.Nowhere? {
        Blame(path, document, i);
        return None;
      }
      LocateValid(w, path, link.href);
      var loading := LoadDocument(place.path);
      if loading.None? || !IsOpus(loading.value) {
        Blame(path, document, i);
        return None;
      }
      NextReached(w, rootPath, root, Site(path, document), i, Site(place.path, loading.value));
      ghost var loaded := Now();
      var target := ResolveOpus(place.path, loading.value);
      if target.None? {
        return None;
      }
      var entry := Linked(link, place.path, place.fragment, target.value);
      AddsVia(w, loaded, Now(), target.value, entry);
      AddsLoaded(w, a, loaded, Now(), entry);
      return Some(entry);
    }

    method ResolveScore(path: string, link: Link, ghost document: DocRef, ghost i: nat) returns (out: Option<Content>)
      requires Valid() && Stands(path, document) && IsOpus(document) && i < |w.arena[document].content|
      requires w.arena[document].content[i] == Entry(None, None, Some(link))
      modifies this`documents
      ensures out.None? ==> AtFault()
      ensures Valid()
      ensures out.Some? ==> Adds(w, old(Now()), Now(), [out.value])
      ensures out.Some? ==> Matches(w, path, Entry(None, None, Some(link)), out.value, nodes, documents) && SingleAt(out.value, opuses)
    {
      hide Located;
      hide SiteReached;
      hide Faulty;
      hide Coherent;
      hide Adds;
      ghost var a := Now();
      var place := w.locate(path, link.href);
      if place.Nowhere? {
        Blame(path, document, i);
        return None;
      }
      var loading := LoadDocument(place.path);
      if loading.None? || w.arena[loading.value].OpusDocument? {
        Blame(path, document, i);
        return None;
      }
      var entry := Scored(link, place.path, place.fragment, loading.value);
      AddsNone(w, Now(), entry);
      AddsLoaded(w, a, Now(), Now(), entry);
      return Some(entry);
    }

    /** An entry that is broken where a reached document has it. */
    lemma Blame(path: string, document: DocRef, i: nat)
      requires Stands(path, document) && BrokenAt(w, rootPath, root, Site(path, document), i)
      ensures AtFault()
    {
    }
  }

  lemma LocateValid(w: World, path: string, href: string)
    requires Typed(w) && w.locate(path, href).Place?
    ensures w.valid(w.locate(path, href).path)
  {
  }

  lemma ContentStep(w: World, path: string, values: seq<Entry>, result: seq<Content>, b: Tables, c: Tables, entry: Content)
    requires |result| < |values| && Adds(w, b, c, [entry])
    requires MatchesAll(w, path, values[..|result|], result, b.nodes, b.documents) && Single(result, b.opuses)
    requires Matches(w, path, values[|result|], entry, c.nodes, c.documents) && SingleAt(entry, c.opuses)
    ensures MatchesAll(w, path, values[..|result| + 1], result + [entry], c.nodes, c.documents) && Single(result + [entry], c.opuses)
  {
    hide Matches;
    MatchesGrown(w, path, values[..|result|], result, b.nodes, b.documents, c.nodes, c.documents);
    var more, sources := result + [entry], values[..|result| + 1];
    forall i | 0 <= i < |more|
      ensures Matches(w, path, sources[i], more[i], c.nodes, c.documents) && SingleAt(more[i], c.opuses)
    {
      if i < |result| {
        assert values[..|result|][i] == sources[i];
        assert SingleAt(result[i], b.opuses);
      }
    }
  }

  lemma AddsFewer(w: World, a: Tables, b: Tables, content: seq<Content>, all: set<string>)
    requires Adds(w, a, b, content)
    ensures |all - b.opuses.Keys| <= |all - a.opuses.Keys| && MemoGrown(a.opuses, b.opuses)
  {
    NoMoreLeft(all, a.opuses.Keys, b.opuses.Keys);
  }

  lemma AddsNone(w: World, t: Tables, entry: Content)
    ensures Adds(w, t, t, [entry])
  {
    assert t.nodes[..|t.nodes|] == t.nodes;
  }

  // A resolved package

  /** Every entry of every node is resolved, every node and every document is reached from the
      root, and all links to one archive path share one node. */
  ghost predicate Whole(w: World, rootPath: string, t: Tables) {
    && t.nodes != [] && t.nodes[0].path == rootPath && w.valid(rootPath)
    && rootPath in t.documents && t.documents[rootPath] == t.nodes[0].document
    && SoundFrom(w, t.nodes, 0, t.documents) && SingleFrom(t.nodes, 0, t.opuses)
    && (forall k :: 0 < k < |t.nodes| ==> RefsFrom(t.nodes, 0, k))
    && (forall p :: p in t.documents && p != rootPath ==> DocRefsFrom(t.nodes, 0, p))
  }

  /** Checks the nesting of the root document and resolves everything reachable from it.  It
      succeeds exactly if the nesting is within its limit and every entry that can be reached,
      inline or through links, can be resolved. */
  method Resolve(w: World, rootPath: string, root: DocRef, ghost bound: nat) returns (ok: bool, r: Resolver?)
    requires Typed(w) && Shallow(w, bound) && bound >= DocumentDepth.MAX_DEPTH && w.valid(rootPath)
    requires root < |w.arena| && w.arena[root].OpusDocument?
    ensures ok <==> DocumentDepth.Visit(Held(w), root, 1, {}) == DocumentDepth.Fine && !Faulty(w, rootPath, root)
    ensures ok ==> r != null && fresh(r) && r.w == w && r.rootPath == rootPath
    ensures ok ==> r.Valid() && Whole(w, rootPath, r.Now()) && r.nodes[0].document == root
    ensures ok ==> forall p :: p in r.documents && p != rootPath ==> p in w.library
  {
    hide Typed;
    hide Shallow;
    hide Held;
    hide Faulty;
    hide SiteReached;
    HeldHas(w, root);
    r := null;
    var nesting := DocumentDepth.CheckDocumentNesting(Held(w), DocumentDepth.To(root));
    ok := nesting.Fine?;
    if !ok {
      return;
    }
    CheckedNests(Held(w), root);
    RootReached(w, rootPath, root);
    r := new Resolver(w, rootPath, root, bound);
    ghost var before := r.Now();
    var target := r.ResolveOpus(rootPath, root);
    ok := target.Some?;
    if ok {
      AddsWhole(w, rootPath, before, r.Now(), target.value);
      WholeFaultless(w, rootPath, root, r.Now());
    }
  }

  /** Every document reached has a node. */
  lemma {:induction false} TourHasNode(w: World, rootPath: string, root: DocRef, t: Tables, sites: seq<Site>) returns (k: nat)
    requires Whole(w, rootPath, t) && t.nodes[0].document == root && Located(w, rootPath, root, t.documents)
    requires Tour(w, rootPath, root, sites)
    ensures k < |t.nodes| && t.nodes[k].path == sites[|sites| - 1].path && t.nodes[k].document == sites[|sites| - 1].document
    decreases |sites|
  {
    hide Leads;
    hide Matches;
    k := 0;
    if |sites| > 1 {
      var before, from, to := sites[..|sites| - 1], sites[|sites| - 2], sites[|sites| - 1];
      forall i | 0 < i < |before|
        ensures Steps(w, rootPath, root, before, i)
      {
        assert Steps(w, rootPath, root, sites, i) && before[i - 1] == sites[i - 1] && before[i] == sites[i];
      }
      var j := TourHasNode(w, rootPath, root, t, before);
      assert Steps(w, rootPath, root, sites, |sites| - 1);
      var i :| 0 <= i < |w.arena[from.document].content| && Leads(w, rootPath, root, from, w.arena[from.document].content[i], to);
      assert SoundNode(w, t.nodes[j], t.nodes, t.documents);
      k := LeadsToNode(w, rootPath, root, t, from, w.arena[from.document].content[i], to, t.nodes[j].content[i]);
    }
  }

  lemma LeadsToNode(w: World, rootPath: string, root: DocRef, t: Tables, from: Site, e: Entry, to: Site, c: Content) returns (k: nat)
    requires Located(w, rootPath, root, t.documents)
    requires Leads(w, rootPath, root, from, e, to) && Matches(w, from.path, e, c, t.nodes, t.documents)
    ensures k < |t.nodes| && t.nodes[k].path == to.path && t.nodes[k].document == to.document
  {
    k := if c.Inline? then c.node else c.target;
  }

  lemma MatchedNotBroken(w: World, rootPath: string, root: DocRef, t: Tables, path: string, e: Entry, c: Content)
    requires Located(w, rootPath, root, t.documents) && SoundFrom(w, t.nodes, 0, t.documents)
    requires Matches(w, path, e, c, t.nodes, t.documents)
    ensures !Broken(w, rootPath, root, path, e)
  {
    if c.Linked? {
      assert SoundNode(w, t.nodes[c.target], t.nodes, t.documents);
    }
  }

  /** A graph that has been resolved has met no fault. */
  lemma WholeFaultless(w: World, rootPath: string, root: DocRef, t: Tables)
    requires Whole(w, rootPath, t) && t.nodes[0].document == root && Located(w, rootPath, root, t.documents)
    ensures !Faulty(w, rootPath, root)
  {
    hide Broken;
    hide Matches;
    forall site, i | SiteReached(w, rootPath, root, site) && IsOpusDocument(w, site.document) && 0 <= i < |w.arena[site.document].content|
      ensures !Broken(w, rootPath, root, site.path, w.arena[site.document].content[i])
    {
      var sites :| Tour(w, rootPath, root, sites) && sites[|sites| - 1] == site;
      var k := TourHasNode(w, rootPath, root, t, sites);
      assert SoundNode(w, t.nodes[k], t.nodes, t.documents);
      MatchedNotBroken(w, rootPath, root, t, site.path, w.arena[site.document].content[i], t.nodes[k].content[i]);
    }
  }

  lemma HeldHas(w: World, d: DocRef)
    requires d < |w.arena| && w.arena[d].OpusDocument?
    ensures d in Held(w)
  {
  }

  lemma AddsWhole(w: World, rootPath: string, a: Tables, b: Tables, t: nat)
    requires a.nodes == [] && a.documents.Keys == {rootPath} && w.valid(rootPath)
    requires Adds(w, a, b, [Inline(t)])
    requires t < |b.nodes| && b.nodes[t].path == rootPath && rootPath in b.documents && b.documents[rootPath] == b.nodes[t].document
    ensures t == 0 && Whole(w, rootPath, b)
  {
    assert Refs([Inline(t)], 0) || RefsFrom(b.nodes, 0, 0);
    forall k | 0 < k < |b.nodes|
      ensures RefsFrom(b.nodes, 0, k)
    {
      assert Refs([Inline(t)], k) || RefsFrom(b.nodes, 0, k);
    }
    assert forall p :: !DocRefs([Inline(t)], p);
  }

  /** Two links to the same archive path lead to the same node. */
  lemma OneOpusPerPath(w: World, rootPath: string, t: Tables, j: nat, i: nat, j': nat, i': nat)
    requires Whole(w, rootPath, t) && j < |t.nodes| && j' < |t.nodes|
    requires i < |t.nodes[j].content| && i' < |t.nodes[j'].content|
    requires var c, c' := t.nodes[j].content[i], t.nodes[j'].content[i']; c.Linked? && c'.Linked? && c.path == c'.path
    ensures t.nodes[j].content[i].target == t.nodes[j'].content[i'].target
  {
    assert Single(t.nodes[j].content, t.opuses) && Single(t.nodes[j'].content, t.opuses);
    assert SingleAt(t.nodes[j].content[i], t.opuses) && SingleAt(t.nodes[j'].content[i'], t.opuses);
  }

  // Collecting the documents again

  /** Pointers lead somewhere. */
  ghost predicate Pointed(w: World, nodes: seq<ResolvedOpus>) {
    forall k :: 0 <= k < |nodes| ==> PointedNode(w, nodes, nodes[k])
  }

  ghost predicate PointedNode(w: World, nodes: seq<ResolvedOpus>, n: ResolvedOpus) {
    && n.document < |w.arena| && w.arena[n.document].OpusDocument?
    && forall i :: 0 <= i < |n.content| ==> PointedAt(w, nodes, n.content[i])
  }

  predicate PointedAt(w: World, nodes: seq<ResolvedOpus>, c: Content) {
    (c.Inline? ==> c.node < |nodes|) && (c.Linked? ==> c.target < |nodes|) && (c.Scored? ==> !IsOpusDocument(w, c.document))
  }

  ghost predicate Within(a: Documents, b: Documents) {
    forall p :: p in a ==> p in b && b[p] == a[p]
  }

  predicate DoneAt(c: Content, visited: set<nat>, result: Documents) {
    && (c.Inline? ==> c.node in visited)
    && (c.Linked? ==> c.target in visited && c.path in result)
    && (c.Scored? ==> c.path in result)
  }

  ghost predicate Done(content: seq<Content>, visited: set<nat>, result: Documents) {
    forall i :: 0 <= i < |content| ==> DoneAt(content[i], visited, result)
  }

  // What can be reached from the root of a graph

  ghost predicate Trail(nodes: seq<ResolvedOpus>, path: seq<nat>) {
    && path != [] && path[0] == 0
    && forall i :: 0 < i < |path| ==> Follows(nodes, path, i)
  }

  ghost predicate Follows(nodes: seq<ResolvedOpus>, path: seq<nat>, i: nat)
    requires 0 < i < |path|
  {
    path[i - 1] < |nodes| && Refs(nodes[path[i - 1]].content, path[i])
  }

  ghost predicate Reachable(nodes: seq<ResolvedOpus>, k: nat) {
    exists path :: Trail(nodes, path) && path[|path| - 1] == k
  }

  ghost predicate Registered(nodes: seq<ResolvedOpus>, p: string) {
    exists j :: 0 <= j < |nodes| && Reachable(nodes, j) && DocRefs(nodes[j].content, p)
  }

  lemma ReachableRoot(nodes: seq<ResolvedOpus>)
    ensures Reachable(nodes, 0)
  {
    assert Trail(nodes, [0]);
  }

  lemma ReachableStep(nodes: seq<ResolvedOpus>, k: nat, next: nat)
    requires k < |nodes| && Reachable(nodes, k) && Refs(nodes[k].content, next)
    ensures Reachable(nodes, next)
  {
    var path :| Trail(nodes, path) && path[|path| - 1] == k;
    var longer := path + [next];
    forall i | 0 < i < |longer|
      ensures Follows(nodes, longer, i)
    {
      if i < |path| {
        assert Follows(nodes, path, i) && longer[i - 1] == path[i - 1] && longer[i] == path[i];
      }
    }
    assert Trail(nodes, longer);
  }

  ghost predicate SoundReachable(w: World, nodes: seq<ResolvedOpus>, documents: Documents) {
    forall k :: 0 <= k < |nodes| && Reachable(nodes, k) ==> SoundNode(w, nodes[k], nodes, documents)
  }

  ghost predicate OnRecord(w: World, n: ResolvedOpus, documents: Documents) {
    w.valid(n.path) && n.path in documents && documents[n.path] == n.document
  }

  /** What a graph, edited or not, has to satisfy for its documents to be collected: everything
      reachable matches, the root is on record under its own path, and no document is lost. */
  ghost predicate Collectable(w: World, nodes: seq<ResolvedOpus>, documents: Documents) {
    && nodes != [] && OnRecord(w, nodes[0], documents) && SoundReachable(w, nodes, documents)
    && forall p :: p in documents ==> p == nodes[0].path || Registered(nodes, p)
  }

  ghost function Below(n: nat): (s: set<nat>)
    ensures forall k: nat :: k in s <==> k < n
  {
    if n == 0 then {} else Below(n - 1) + {n - 1}
  }

  class Collector {
    const w: World
    const nodes: seq<ResolvedOpus>
    const documents: Documents       // what the resolver had found
    var visited: set<nat>
    var result: Documents

    constructor (w: World, nodes: seq<ResolvedOpus>, documents: Documents)
      ensures this.w == w && this.nodes == nodes && this.documents == documents && visited == {} && result == map[]
    {
      this.w, this.nodes, this.documents, visited, result := w, nodes, documents, {}, map[];
    }

    ghost function All(): set<nat> {
      Below(|nodes|)
    }

    ghost predicate Valid()
      reads this
    {
      Pointed(w, nodes) && visited <= All() && Within(result, documents)
    }

    ghost predicate Intact() {
      SoundReachable(w, nodes, documents)
    }

    method AddDocument(path: string, document: DocRef) returns (ok: bool)
      requires Valid()
      modifies this`result
      ensures Valid()
      ensures ok <==> w.valid(path) && path in documents && documents[path] == document
      ensures result == if ok then old(result)[path := document] else old(result)
    {
      if !w.valid(path) {
        return false;
      }
      if path !in documents || documents[path] != document {
        return false;
      }
      if path in result && result[path] != document {
        return false;
      }
      result := result[path := document];
      return true;
    }

    /** Visits a node and everything below it that has not been visited.  It fails only where an
        entry does not match its source any more or a document is not the one on record. */
    method Walk(k: nat, register: bool) returns (ok: bool)
      requires Valid() && k < |nodes| && Reachable(nodes, k)
      modifies this
      ensures Valid() && Within(old(result), result) && old(visited) <= visited
      ensures ok ==> k in visited && (register ==> Registrable(k) && nodes[k].path in result)
      ensures ok ==> forall j :: j in visited && j !in old(visited) ==> Left(j)
      ensures Accounted(old(result), if register then {nodes[k].path} else {})
      ensures Intact() && (register ==> Registrable(k)) ==> ok
      decreases |All() - visited|, 1
    {
      hide SoundReachable;
      hide Left;
      hide Registered;
      hide Reachable;
      hide SoundNode;
      if register {
        ok := AddDocument(nodes[k].path, nodes[k].document);
        if !ok {
          return;
        }
      }
      if k in visited {
        return true;
      }
      ghost var before := visited;
      visited := visited + {k};
      OneFewer(All(), before, k);
      SoundAt(w, nodes, documents, k);
      var entries := w.arena[nodes[k].document].content;
      if |nodes[k].content| != |entries| {
        SoundLength(w, nodes[k], nodes, documents);
        return false;
      }
      ok := WalkContent(k, before);
    }

    ghost predicate Registrable(k: nat)
      requires k < |nodes|
    {
      OnRecord(w, nodes[k], documents)
    }

    /** A node that has been visited: it matches its document and everything it refers to has been
        visited or registered. */
    ghost predicate Left(j: nat)
      reads this
    {
      j < |nodes| && SoundNode(w, nodes[j], nodes, documents) && Done(nodes[j].content, visited, result)
    }

    /** New registrations come from reachable nodes or from `extra`. */
    ghost predicate Accounted(before: Documents, extra: set<string>)
      reads this`result
    {
      forall p :: p in result ==> p in before || p in extra || Registered(nodes, p)
    }

    method WalkContent(k: nat, ghost before: set<nat>) returns (ok: bool)
      requires Valid() && k < |nodes| && Reachable(nodes, k) && visited == before + {k} && k !in before
      requires |nodes[k].content| == |w.arena[nodes[k].document].content|
      modifies this
      ensures Valid() && Within(old(result), result) && old(visited) <= visited
      ensures ok ==> forall j :: j in visited && j !in before ==> Left(j)
      ensures Accounted(old(result), {})
      ensures Intact() ==> ok
      decreases |All() - visited|, 3
    {
      hide SoundReachable;
      hide Matches;
      hide Done;
      hide Registered;
      hide Reachable;
      var content, entries := nodes[k].content, w.arena[nodes[k].document].content;
      DoneNothing(content, visited, result);
      SoundAt(w, nodes, documents, k);
      for i := 0 to |content|
        invariant Valid() && Within(old(result), result) && old(visited) <= visited
        invariant Done(content[..i], visited, result) && Accounted(old(result), {})
        invariant forall m :: 0 <= m < i ==> Matches(w, nodes[k].path, entries[m], content[m], nodes, documents)
        invariant forall j :: j in visited && j !in before && j != k ==> Left(j)
      {
        NoMoreLeft(All(), old(visited), visited);
        ghost var visited', result' := visited, result;
        ok := WalkEntry(k, i);
        if !ok {
          return;
        }
        DoneMore(content[..i], visited', result', visited, result);
        DoneAdd(content, i, visited, result);
        forall j | j in visited && j !in before && j != k
          ensures Left(j)
        {
          if j in visited' {
            DoneMore(nodes[j].content, visited', result', visited, result);
          }
        }
      }
      assert content[..|content|] == content;
      ok := true;
    }

    method WalkEntry(k: nat, i: nat) returns (ok: bool)
      requires Valid() && k < |nodes| && Reachable(nodes, k) && i < |nodes[k].content| == |w.arena[nodes[k].document].content|
      modifies this
      ensures Valid() && Within(old(result), result) && old(visited) <= visited
      ensures ok ==> DoneAt(nodes[k].content[i], visited, result)
      ensures ok ==> Matches(w, nodes[k].path, w.arena[nodes[k].document].content[i], nodes[k].content[i], nodes, documents)
      ensures ok ==> forall j :: j in visited && j !in old(visited) ==> Left(j)
      ensures Accounted(old(result), {})
      ensures Intact() && Matches(w, nodes[k].path, w.arena[nodes[k].document].content[i], nodes[k].content[i], nodes, documents) ==> ok
      decreases |All() - visited|, 2
    {
      hide SoundReachable;
      hide Left;
      hide Registered;
      hide Reachable;
      var path, source, c := nodes[k].path, w.arena[nodes[k].document].content[i], nodes[k].content[i];
      assert PointedNode(w, nodes, nodes[k]) && PointedAt(w, nodes, c);
      EntryReaches(nodes, k, i);
      var selected := (if source.opus.Some? then 1 else 0) + (if source.link.Some? then 1 else 0) + (if source.score.Some? then 1 else 0);
      if selected != 1 {
        return false;
      }
      if source.opus.Some? {
        if !c.Inline? || nodes[c.node].document != source.opus.value || nodes[c.node].path != path {
          return false;
        }
        ok := Walk(c.node, false);
      } else if source.link.Some? {
        if !c.Linked? || c.link != source.link.value {
          return false;
        }
        var place := w.locate(path, source.link.value.href);
        if place != Place(c.path, c.fragment) || nodes[c.target].path != c.path {
          return false;
        }
        ok := Walk(c.target, true);
      } else {
        if !c.Scored? || c.link != source.score.value {
          return false;
        }
        var place := w.locate(path, source.score.value.href);
        if place != Place(c.path, c.fragment) {
          return false;
        }
        ok := AddDocument(c.path, c.document);
      }
    }
  }

  lemma SoundAt(w: World, nodes: seq<ResolvedOpus>, documents: Documents, k: nat)
    requires k < |nodes| && Reachable(nodes, k)
    ensures SoundReachable(w, nodes, documents) ==> SoundNode(w, nodes[k], nodes, documents)
  {
  }

  lemma SoundLength(w: World, n: ResolvedOpus, nodes: seq<ResolvedOpus>, documents: Documents)
    requires n.document < |w.arena| && w.arena[n.document].OpusDocument? && |n.content| != |w.arena[n.document].content|
    ensures !SoundNode(w, n, nodes, documents)
  {
  }

  lemma EntryReaches(nodes: seq<ResolvedOpus>, k: nat, i: nat)
    requires k < |nodes| && Reachable(nodes, k) && i < |nodes[k].content|
    ensures var c := nodes[k].content[i];
            && (c.Inline? ==> Reachable(nodes, c.node))
            && (c.Linked? ==> Reachable(nodes, c.target))
            && (!c.Inline? ==> Registered(nodes, c.path))
  {
    var c := nodes[k].content[i];
    if c.Inline? {
      assert Reaches(c, c.node);
      ReachableStep(nodes, k, c.node);
    } else {
      assert Registers(c, c.path) && DocRefs(nodes[k].content, c.path);
      if c.Linked? {
        assert Reaches(c, c.target);
        ReachableStep(nodes, k, c.target);
      }
    }
  }

  lemma DoneNothing(content: seq<Content>, visited: set<nat>, result: Documents)
    ensures Done(content[..0], visited, result)
  {
  }

  lemma DoneMore(content: seq<Content>, visited: set<nat>, result: Documents, visited': set<nat>, result': Documents)
    requires Done(content, visited, result) && visited <= visited' && Within(result, result')
    ensures Done(content, visited', result')
  {
    forall i | 0 <= i < |content|
      ensures DoneAt(content[i], visited', result')
    {
      assert DoneAt(content[i], visited, result);
    }
  }

  lemma DoneAdd(content: seq<Content>, i: nat, visited: set<nat>, result: Documents)
    requires i < |content| && Done(content[..i], visited, result) && DoneAt(content[i], visited, result)
    ensures Done(content[..i + 1], visited, result)
  {
    assert content[..i + 1] == content[..i] + [content[i]];
  }

  /** A set of nodes that has the root and everything its members lead to has all that is reachable. */
  lemma {:induction false} TrailVisited(nodes: seq<ResolvedOpus>, visited: set<nat>, result: Documents, path: seq<nat>)
    requires Trail(nodes, path) && 0 in visited
    requires forall j :: j in visited && j < |nodes| ==> Done(nodes[j].content, visited, result)
    ensures path[|path| - 1] in visited
    decreases |path|
  {
    if |path| > 1 {
      var before, k := path[..|path| - 1], path[|path| - 2];
      forall i | 0 < i < |before|
        ensures Follows(nodes, before, i)
      {
        assert Follows(nodes, path, i) && before[i - 1] == path[i - 1] && before[i] == path[i];
      }
      TrailVisited(nodes, visited, result, before);
      assert Follows(nodes, path, |path| - 1);
      assert Refs(nodes[k].content, path[|path| - 1]);
      var i :| 0 <= i < |nodes[k].content| && Reaches(nodes[k].content[i], path[|path| - 1]);
      assert Done(nodes[k].content, visited, result) && DoneAt(nodes[k].content[i], visited, result);
    }
  }

  lemma ReachableVisited(nodes: seq<ResolvedOpus>, visited: set<nat>, result: Documents, k: nat)
    requires Reachable(nodes, k) && 0 in visited
    requires forall j :: j in visited && j < |nodes| ==> Done(nodes[j].content, visited, result)
    ensures k in visited
  {
    var path :| Trail(nodes, path) && path[|path| - 1] == k;
    TrailVisited(nodes, visited, result, path);
  }

  lemma RegisteredResult(nodes: seq<ResolvedOpus>, visited: set<nat>, result: Documents, p: string)
    requires Registered(nodes, p) && 0 in visited
    requires forall j :: j in visited && j < |nodes| ==> Done(nodes[j].content, visited, result)
    ensures p in result
  {
    var j :| 0 <= j < |nodes| && Reachable(nodes, j) && DocRefs(nodes[j].content, p);
    ReachableVisited(nodes, visited, result, j);
    var i :| 0 <= i < |nodes[j].content| && Registers(nodes[j].content[i], p);
    assert Done(nodes[j].content, visited, result) && DoneAt(nodes[j].content[i], visited, result);
  }

  lemma SameTable(a: Documents, b: Documents)
    requires Within(a, b) && |a| == |b|
    ensures a == b
  {
    assert a.Keys <= b.Keys && |a.Keys| == |a| && |b.Keys| == |b|;
    SameSize(a.Keys, b.Keys);
  }

  lemma WholePointed(w: World, rootPath: string, t: Tables)
    requires Whole(w, rootPath, t)
    ensures Pointed(w, t.nodes)
  {
    forall k | 0 <= k < |t.nodes|
      ensures PointedNode(w, t.nodes, t.nodes[k])
    {
      var n := t.nodes[k];
      assert SoundNode(w, n, t.nodes, t.documents);
      forall i | 0 <= i < |n.content|
        ensures PointedAt(w, t.nodes, n.content[i])
      {
        assert Matches(w, n.path, w.arena[n.document].content[i], n.content[i], t.nodes, t.documents);
      }
    }
  }

  /** The graph as resolved can be collected. */
  lemma WholeCollectable(w: World, rootPath: string, t: Tables)
    requires Whole(w, rootPath, t)
    ensures Collectable(w, t.nodes, t.documents)
  {
    forall p | p in t.documents && p != rootPath
      ensures Registered(t.nodes, p)
    {
      assert DocRefsFrom(t.nodes, 0, p);
      var j :| 0 <= j < |t.nodes| && DocRefs(t.nodes[j].content, p);
      AllReachable(t.nodes, j);
    }
  }

  lemma {:induction false} AllReachable(nodes: seq<ResolvedOpus>, k: nat)
    requires k < |nodes| && forall k :: 0 < k < |nodes| ==> RefsFrom(nodes, 0, k)
    ensures Reachable(nodes, k)
    decreases k
  {
    if k == 0 {
      ReachableRoot(nodes);
    } else {
      assert RefsFrom(nodes, 0, k);
      var j :| 0 <= j < k && Refs(nodes[j].content, k);
      AllReachable(nodes, j);
      ReachableStep(nodes, j, k);
    }
  }

  /** The walk from the root.  Whatever has been done to the graph, it returns the resolver's own
      table exactly if the graph can be collected. */
  method CollectDocuments(w: World, nodes: seq<ResolvedOpus>, documents: Documents) returns (out: Option<Documents>)
    requires Pointed(w, nodes) && nodes != []
    ensures out.Some? <==> Collectable(w, nodes, documents)
    ensures out.Some? ==> out.value == documents
  {
    hide SoundReachable;
    hide Done;
    hide Pointed;
    hide Registered;
    hide Reachable;
    hide SoundNode;
    var collector := new Collector(w, nodes, documents);
    ReachableRoot(nodes);
    var ok := collector.Walk(0, true);
    if !ok {
      return None;
    }
    ghost var visited, result := collector.visited, collector.result;
    forall p | Registered(nodes, p)
      ensures p in result
    {
      RegisteredResult(nodes, visited, result, p);
    }
    if |collector.result| != |documents| {
      assert Collectable(w, nodes, documents) ==> result == documents;
      return None;
    }
    SameTable(collector.result, documents);
    VisitedSound(w, nodes, documents, visited, result);
    return Some(collector.result);
  }

  lemma VisitedSound(w: World, nodes: seq<ResolvedOpus>, documents: Documents, visited: set<nat>, result: Documents)
    requires 0 in visited
    requires forall j :: j in visited ==> j < |nodes| && SoundNode(w, nodes[j], nodes, documents) && Done(nodes[j].content, visited, result)
    ensures SoundReachable(w, nodes, documents)
  {
    forall k | 0 <= k < |nodes| && Reachable(nodes, k)
      ensures SoundNode(w, nodes[k], nodes, documents)
    {
      ReachableVisited(nodes, visited, result, k);
    }
  }
}
