/** Writing edits of a resolved opus graph back to its package. */
module OpusSyncs {
  import opened Utf8
  import opened OpusGraphs
  import opened OpusResolvers
  import DocumentDepth

  const DEFAULT_ROOT := "score.musicxml"

  /** A digest that no two byte strings share. */
  datatype Digest = Digest(of: seq<byte>)

  datatype Encoding = Unencodable | Encoded(data: seq<byte>)

  /** The canonical encoding of each document as it is now. */
  type Encoder = DocRef -> Encoding

  datatype Resource = Resource(path: string, data: seq<byte>)

  // The package

  function RootPath(rootFiles: seq<string>): string {
    if rootFiles == [] then DEFAULT_ROOT else rootFiles[0]
  }

  ghost predicate DistinctPaths(resources: seq<Resource>) {
    forall i, j :: 0 <= i < j < |resources| ==> resources[i].path != resources[j].path
  }

  ghost predicate HasPath(resources: seq<Resource>, path: string) {
    exists i :: 0 <= i < |resources| && resources[i].path == path
  }

  /** Valid, distinct entry names; every root file is the root document or a resource. */
  ghost predicate Prepared(valid: string -> bool, rootFiles: seq<string>, resources: seq<Resource>) {
    && DistinctPaths(resources) && !HasPath(resources, RootPath(rootFiles))
    && (forall i :: 0 <= i < |resources| ==> valid(resources[i].path))
    && valid(RootPath(rootFiles))
    && (forall i :: 0 <= i < |rootFiles| ==> valid(rootFiles[i]))
    && (forall i, j :: 0 <= i < j < |rootFiles| ==> rootFiles[i] != rootFiles[j])
    && (forall i :: 0 < i < |rootFiles| ==> HasPath(resources, rootFiles[i]))
  }

  /** Only names matter. */
  lemma PreparedPaths(valid: string -> bool, rootFiles: seq<string>, a: seq<Resource>, b: seq<Resource>)
    requires |a| == |b| && forall i :: 0 <= i < |a| ==> a[i].path == b[i].path
    ensures Prepared(valid, rootFiles, a) ==> Prepared(valid, rootFiles, b)
  {
    forall p | HasPath(a, p)
      ensures HasPath(b, p)
    {
      var i :| 0 <= i < |a| && a[i].path == p;
      assert b[i].path == p;
    }
    forall p | HasPath(b, p)
      ensures HasPath(a, p)
    {
      var i :| 0 <= i < |b| && b[i].path == p;
      assert a[i].path == p;
    }
  }

  class Package {
    var rootFiles: seq<string>
    var resources: seq<Resource>
    var document: DocRef

    constructor (rootFiles: seq<string>, resources: seq<Resource>, document: DocRef)
      ensures this.rootFiles == rootFiles && this.resources == resources && this.document == document
    {
      this.rootFiles, this.resources, this.document := rootFiles, resources, document;
    }

    method Prepare(valid: string -> bool) returns (ok: bool)
      ensures ok <==> Prepared(valid, rootFiles, resources)
    {
      var root := RootPath(rootFiles);
      for i := 0 to |resources|
        invariant forall k :: 0 <= k < i ==> valid(resources[k].path) && resources[k].path != root
        invariant DistinctPaths(resources[..i])
      {
        if !valid(resources[i].path) || resources[i].path == root {
          return false;
        }
        for k := 0 to i
          invariant forall j :: 0 <= j < k ==> resources[j].path != resources[i].path
        {
          if resources[k].path == resources[i].path {
            return false;
          }
        }
      }
      assert resources[..|resources|] == resources;
      if !valid(root) {
        return false;
      }
      ok := PrepareRoots(valid);
    }

    method PrepareRoots(valid: string -> bool) returns (ok: bool)
      ensures ok <==>
              && (forall i :: 0 <= i < |rootFiles| ==> valid(rootFiles[i]))
              && (forall i, j :: 0 <= i < j < |rootFiles| ==> rootFiles[i] != rootFiles[j])
              && (forall i :: 0 < i < |rootFiles| ==> HasPath(resources, rootFiles[i]))
    {
      for i := 0 to |rootFiles|
        invariant forall k :: 0 <= k < i ==> valid(rootFiles[k])
        invariant forall k, j :: 0 <= k < j < i ==> rootFiles[k] != rootFiles[j]
        invariant forall k :: 0 < k < i ==> HasPath(resources, rootFiles[k])
      {
        if !valid(rootFiles[i]) || rootFiles[i] in rootFiles[..i] {
          return false;
        }
        var found := i == 0;
        for k := 0 to |resources|
          invariant found <==> i == 0 || exists j :: 0 <= j < k && resources[j].path == rootFiles[i]
        {
          found := found || resources[k].path == rootFiles[i];
        }
        if !found {
          return false;
        }
      }
      ok := true;
    }
  }

  // The effect

  /** A linked document whose encoding has changed is written, nothing else is. */
  function Updated(r: Resource, written: set<string>, encoded: map<string, seq<byte>>, canonical: map<string, Digest>): Resource {
    if r.path in written && r.path in encoded && r.path in canonical && Digest(encoded[r.path]) != canonical[r.path]
    then r.(data := encoded[r.path]) else r
  }

  function UpdatedAll(resources: seq<Resource>, written: set<string>, encoded: map<string, seq<byte>>, canonical: map<string, Digest>): (rs: seq<Resource>)
    ensures |rs| == |resources|
    ensures forall i :: 0 <= i < |rs| ==> rs[i] == Updated(resources[i], written, encoded, canonical)
    ensures forall i :: 0 <= i < |rs| ==> rs[i].path == resources[i].path
  {
    seq(|resources|, i requires 0 <= i < |resources| => Updated(resources[i], written, encoded, canonical))
  }

  lemma UpdateOne(resources: seq<Resource>, written: set<string>, encoded: map<string, seq<byte>>, canonical: map<string, Digest>,
                  p: string, index: nat)
    requires DistinctPaths(resources) && index < |resources| && resources[index].path == p && p !in written
    requires p in encoded && p in canonical
    ensures var before := UpdatedAll(resources, written, encoded, canonical);
            UpdatedAll(resources, written + {p}, encoded, canonical) ==
            if Digest(encoded[p]) != canonical[p] then before[index := Resource(p, encoded[p])] else before
  {
    var before, after := UpdatedAll(resources, written, encoded, canonical), UpdatedAll(resources, written + {p}, encoded, canonical);
    var expected := if Digest(encoded[p]) != canonical[p] then before[index := Resource(p, encoded[p])] else before;
    forall i | 0 <= i < |resources|
      ensures after[i] == expected[i]
    {
      if i != index {
        assert resources[i].path != p;
      }
    }
  }

  lemma UpdateNothing(resources: seq<Resource>, encoded: map<string, seq<byte>>, canonical: map<string, Digest>)
    ensures UpdatedAll(resources, {}, encoded, canonical) == resources
  {
  }

  /** The digest of each document's encoding. */
  function Digests(encoded: map<string, seq<byte>>): map<string, Digest> {
    map p | p in encoded :: Digest(encoded[p])
  }

  /** What is on record about each linked document is what the package holds. */
  ghost predicate Unchanged(resources: seq<Resource>, linked: set<string>, hashes: map<string, Digest>) {
    forall p :: p in linked ==> p in hashes && Holds(resources, p, hashes[p])
  }

  ghost predicate Holds(resources: seq<Resource>, path: string, digest: Digest) {
    exists i :: 0 <= i < |resources| && resources[i].path == path && Digest(resources[i].data) == digest
  }

  ghost predicate EncodesTo(encode: Encoder, documents: Documents, encoded: map<string, seq<byte>>) {
    && encoded.Keys == documents.Keys
    && forall p :: p in documents ==> encode(documents[p]) == Encoded(encoded[p])
  }

  ghost predicate Indexed(resources: seq<Resource>, indexes: map<string, nat>) {
    forall p :: p in indexes ==> indexes[p] < |resources| && resources[indexes[p]].path == p
  }

  lemma IndexedAt(resources: seq<Resource>, indexes: map<string, nat>, p: string)
    requires Indexed(resources, indexes) && p in indexes
    ensures indexes[p] < |resources| && resources[indexes[p]].path == p
  {
  }

  class OpusState {
    const package: Package
    const rootPath: string
    const documents: Documents
    var nodes: seq<ResolvedOpus>
    var canonicalHashes: map<string, Digest>
    var resourceHashes: map<string, Digest>

    ghost predicate Valid()
      reads this
    {
      rootPath in documents && canonicalHashes.Keys == documents.Keys && resourceHashes.Keys == Linked() && nodes != []
    }

    ghost function Linked(): set<string> {
      documents.Keys - {rootPath}
    }

    /** What has to hold for the edits to be written, apart from the shape of the graph. */
    ghost predicate Syncable(valid: string -> bool, encode: Encoder)
      reads this, package
    {
      && Prepared(valid, package.rootFiles, package.resources) && RootPath(package.rootFiles) == rootPath
      && rootPath in documents && package.document == documents[rootPath]
      && Unchanged(package.resources, Linked(), resourceHashes)
      && forall p :: p in documents ==> encode(documents[p]).Encoded?
    }

    constructor (package: Package, rootPath: string, documents: Documents, nodes: seq<ResolvedOpus>,
                 canonicalHashes: map<string, Digest>, resourceHashes: map<string, Digest>)
      requires rootPath in documents && canonicalHashes.Keys == documents.Keys && nodes != []
      requires resourceHashes.Keys == documents.Keys - {rootPath}
      ensures Valid() && this.package == package && this.rootPath == rootPath && this.documents == documents && this.nodes == nodes
      ensures this.canonicalHashes == canonicalHashes && this.resourceHashes == resourceHashes
    {
      this.package, this.rootPath, this.documents, this.nodes := package, rootPath, documents, nodes;
      this.canonicalHashes, this.resourceHashes := canonicalHashes, resourceHashes;
    }

    /** Where each resource is. */
    method Indexes() returns (indexes: map<string, nat>)
      ensures Indexed(package.resources, indexes)
      ensures forall i :: 0 <= i < |package.resources| ==> package.resources[i].path in indexes
    {
      indexes := map[];
      for i := 0 to |package.resources|
        invariant forall p :: p in indexes ==> indexes[p] < i && package.resources[indexes[p]].path == p
        invariant forall k :: 0 <= k < i ==> package.resources[k].path in indexes
      {
        indexes := indexes[package.resources[i].path := i];
      }
    }

    method CheckResources(indexes: map<string, nat>) returns (ok: bool)
      requires Valid() && DistinctPaths(package.resources)
      requires Indexed(package.resources, indexes)
      requires forall i :: 0 <= i < |package.resources| ==> package.resources[i].path in indexes
      ensures ok <==> Unchanged(package.resources, Linked(), resourceHashes)
      ensures ok ==> Linked() <= indexes.Keys
    {
      var rest := documents.Keys - {rootPath};
      while rest != {}
        invariant rest <= Linked() && Linked() - rest <= indexes.Keys
        invariant Unchanged(package.resources, Linked() - rest, resourceHashes)
        decreases |rest|
      {
        var p :| p in rest;
        if p !in indexes || Digest(package.resources[indexes[p]].data) != resourceHashes[p] {
          NotHeld(package.resources, p, resourceHashes[p], indexes);
          return false;
        }
        assert Holds(package.resources, p, resourceHashes[p]);
        rest := rest - {p};
      }
      assert Linked() - rest == Linked();
      ok := true;
    }

    method EncodeAll(encode: Encoder) returns (ok: bool, encoded: map<string, seq<byte>>)
      ensures ok <==> forall p :: p in documents ==> encode(documents[p]).Encoded?
      ensures ok ==> EncodesTo(encode, documents, encoded)
    {
      encoded := map[];
      var rest := documents.Keys;
      while rest != {}
        invariant rest <= documents.Keys && encoded.Keys == documents.Keys - rest
        invariant forall p :: p in encoded ==> encode(documents[p]) == Encoded(encoded[p])
        decreases |rest|
      {
        var p :| p in rest;
        var data := encode(documents[p]);
        if data.Unencodable? {
          return false, encoded;
        }
        encoded, rest := encoded[p := data.data], rest - {p};
      }
      ok := true;
    }

    method WriteResources(indexes: map<string, nat>, encoded: map<string, seq<byte>>)
      requires Valid() && DistinctPaths(package.resources) && encoded.Keys == documents.Keys && Linked() <= indexes.Keys
      requires Indexed(package.resources, indexes)
      modifies package`resources
      ensures package.resources == UpdatedAll(old(package.resources), Linked(), encoded, canonicalHashes)
    {
      hide UpdatedAll;
      hide DistinctPaths;
      hide Indexed;
      ghost var before := package.resources;
      UpdateNothing(before, encoded, canonicalHashes);
      var rest := documents.Keys - {rootPath};
      ghost var written: set<string> := {};
      while rest != {}
        invariant rest !! written && rest + written == Linked()
        invariant package.resources == UpdatedAll(before, written, encoded, canonicalHashes)
        decreases |rest|
      {
        var p :| p in rest;
        IndexedAt(before, indexes, p);
        UpdateOne(before, written, encoded, canonicalHashes, p, indexes[p]);
        if Digest(encoded[p]) != canonicalHashes[p] {
          package.resources := package.resources[indexes[p] := Resource(p, encoded[p])];
        }
        rest, written := rest - {p}, written + {p};
      }
      assert written == Linked();
    }

    method RecordHashes(indexes: map<string, nat>, encoded: map<string, seq<byte>>)
      requires Valid() && encoded.Keys == documents.Keys && Linked() <= indexes.Keys
      requires Indexed(package.resources, indexes)
      modifies this`canonicalHashes, this`resourceHashes
      ensures Valid() && canonicalHashes == Digests(encoded)
      ensures Unchanged(package.resources, Linked(), resourceHashes)
    {
      RecordCanonical(encoded);
      RecordResources(indexes);
    }

    method RecordCanonical(encoded: map<string, seq<byte>>)
      requires Valid() && encoded.Keys == documents.Keys
      modifies this`canonicalHashes
      ensures Valid() && canonicalHashes == Digests(encoded)
    {
      var rest := documents.Keys;
      while rest != {}
        invariant rest <= documents.Keys && canonicalHashes.Keys == documents.Keys
        invariant forall p :: p in documents && p !in rest ==> canonicalHashes[p] == Digest(encoded[p])
        decreases |rest|
      {
        var p :| p in rest;
        canonicalHashes := canonicalHashes[p := Digest(encoded[p])];
        rest := rest - {p};
      }
    }

    method RecordResources(indexes: map<string, nat>)
      requires Valid() && Linked() <= indexes.Keys
      requires Indexed(package.resources, indexes)
      modifies this`resourceHashes
      ensures Valid() && Unchanged(package.resources, Linked(), resourceHashes)
    {
      var rest := documents.Keys - {rootPath};
      while rest != {}
        invariant rest <= Linked() == resourceHashes.Keys
        invariant forall p :: p in Linked() && p !in rest ==> Holds(package.resources, p, resourceHashes[p])
        decreases |rest|
      {
        var p :| p in rest;
        ghost var was := resourceHashes;
        assert package.resources[indexes[p]].path == p;
        resourceHashes := resourceHashes[p := Digest(package.resources[indexes[p]].data)];
        assert forall q :: q in was && q != p ==> resourceHashes[q] == was[q];
        rest := rest - {p};
      }
    }

    /** The encodings on record are those the documents have now. */
    ghost predicate Settled(encode: Encoder)
      reads this
    {
      forall p :: p in documents && encode(documents[p]).Encoded? ==>
        p in canonicalHashes && canonicalHashes[p] == Digest(encode(documents[p]).data)
    }

    /** The root of the graph still holds the root document of the package.  A caller can check
        this before a call. */
    predicate RootKept()
      reads this
    {
      nodes != [] && rootPath in documents && nodes[0].document == documents[rootPath]
    }

    /** All or nothing, for every graph: it succeeds exactly if package and graph are as recorded
        and everything can be encoded, and an error leaves package and state as they were.  On
        success every linked document whose encoding has changed is replaced by its encoding and
        every other byte stays.  The document of the package becomes that of the graph's root:
        it is unchanged, and a further call can succeed, exactly if the root was kept. */
    method Sync(w: World, encode: Encoder) returns (ok: bool, ghost encoded: map<string, seq<byte>>)
      requires Valid() && Pointed(w, nodes)
      modifies this`canonicalHashes, this`resourceHashes, package`resources, package`document
      ensures Valid()
      ensures ok <==> old(Syncable(w.valid, encode)) && Collectable(w, nodes, documents)
      ensures !ok ==> package.resources == old(package.resources) && package.document == old(package.document)
                      && canonicalHashes == old(canonicalHashes) && resourceHashes == old(resourceHashes)
      ensures ok ==> EncodesTo(encode, documents, encoded) && Settled(encode)
                     && package.resources == UpdatedAll(old(package.resources), Linked(), encoded, old(canonicalHashes))
                     && package.document == nodes[0].document
      ensures ok ==> (package.document == old(package.document) <==> RootKept())
      ensures ok ==> (Syncable(w.valid, encode) <==> RootKept())
      ensures old(Settled(encode)) ==>
                package.resources == old(package.resources)
                && canonicalHashes == old(canonicalHashes) && resourceHashes == old(resourceHashes)
    {
      hide Collectable;
      hide Pointed;
      hide UpdatedAll;
      hide Prepared;
      hide Unchanged;
      hide Indexed;
      encoded := map[];
      ok := package.Prepare(w.valid);
      if !ok {
        return;
      }
      PreparedDistinct(w.valid, package.rootFiles, package.resources);
      if RootPath(package.rootFiles) != rootPath || package.document != documents[rootPath] {
        return false, map[];
      }
      var collected := CollectDocuments(w, nodes, documents);
      if collected.None? {
        return false, map[];
      }
      var indexes := Indexes();
      ok := CheckResources(indexes);
      if !ok {
        return;
      }
      var data;
      ok, data := EncodeAll(encode);
      if !ok {
        return;
      }
      encoded := data;
      Commit(w, encode, indexes, data);
    }

    method Commit(w: World, encode: Encoder, indexes: map<string, nat>, encoded: map<string, seq<byte>>)
      requires Valid() && Syncable(w.valid, encode) && EncodesTo(encode, documents, encoded)
      requires Indexed(package.resources, indexes) && Linked() <= indexes.Keys
      modifies this`canonicalHashes, this`resourceHashes, package`resources, package`document
      ensures Valid() && Settled(encode) && (Syncable(w.valid, encode) <==> RootKept())
      ensures package.resources == UpdatedAll(old(package.resources), Linked(), encoded, old(canonicalHashes))
      ensures package.document == nodes[0].document
      ensures old(Settled(encode)) ==>
                package.resources == old(package.resources) && canonicalHashes == old(canonicalHashes) && resourceHashes == old(resourceHashes)
    {
      hide UpdatedAll;
      hide Prepared;
      hide Unchanged;
      hide Indexed;
      hide DistinctPaths;
      ghost var before, hashes := package.resources, resourceHashes;
      PreparedDistinct(w.valid, package.rootFiles, before);
      WriteResources(indexes, encoded);
      IndexedUpdated(before, Linked(), encoded, canonicalHashes, indexes);
      PreparedPaths(w.valid, package.rootFiles, before, package.resources);
      package.document := nodes[0].document;
      RecordHashes(indexes, encoded);
      if old(Settled(encode)) {
        SettledWrites(before, Linked(), encoded, old(canonicalHashes));
        HashesDetermined(before, Linked(), hashes, resourceHashes);
        assert canonicalHashes == old(canonicalHashes);
      }
    }

    /** Two calls without an edit between them: after a success the second one succeeds exactly if
        the root was kept, and whether or not it does it changes nothing. */
    method SyncTwice(w: World, encode: Encoder) returns (first: bool, second: bool, ghost between: seq<Resource>, ghost document: DocRef)
      requires Valid() && Pointed(w, nodes)
      modifies this`canonicalHashes, this`resourceHashes, package`resources, package`document
      ensures Valid()
      ensures first ==> (second <==> RootKept())
      ensures first ==> package.resources == between && package.document == document == nodes[0].document
    {
      hide Collectable;
      hide Pointed;
      hide UpdatedAll;
      hide Syncable;
      ghost var encoded;
      first, encoded := Sync(w, encode);
      between, document := package.resources, package.document;
      second, encoded := Sync(w, encode);
    }
  }

  /** A root node that still has the package's root path still has its document. */
  lemma RootPathKeeps(w: World, rootPath: string, nodes: seq<ResolvedOpus>, documents: Documents)
    requires Collectable(w, nodes, documents) && nodes[0].path == rootPath
    ensures rootPath in documents && nodes[0].document == documents[rootPath]
  {
  }

  lemma PreparedDistinct(valid: string -> bool, rootFiles: seq<string>, resources: seq<Resource>)
    requires Prepared(valid, rootFiles, resources)
    ensures DistinctPaths(resources)
  {
  }

  lemma IndexedUpdated(resources: seq<Resource>, written: set<string>, encoded: map<string, seq<byte>>, canonical: map<string, Digest>,
                       indexes: map<string, nat>)
    requires Indexed(resources, indexes)
    ensures Indexed(UpdatedAll(resources, written, encoded, canonical), indexes)
  {
  }

  /** If every encoding is the one on record, nothing is written. */
  lemma SettledWrites(resources: seq<Resource>, written: set<string>, encoded: map<string, seq<byte>>, canonical: map<string, Digest>)
    requires forall p :: p in encoded ==> p in canonical && canonical[p] == Digest(encoded[p])
    ensures UpdatedAll(resources, written, encoded, canonical) == resources
  {
  }

  lemma HashesDetermined(resources: seq<Resource>, linked: set<string>, a: map<string, Digest>, b: map<string, Digest>)
    requires DistinctPaths(resources) && a.Keys == linked == b.Keys
    requires Unchanged(resources, linked, a) && Unchanged(resources, linked, b)
    ensures a == b
  {
    forall p | p in linked
      ensures a[p] == b[p]
    {
      assert Holds(resources, p, a[p]) && Holds(resources, p, b[p]);
      var i :| 0 <= i < |resources| && resources[i].path == p && Digest(resources[i].data) == a[p];
      var j :| 0 <= j < |resources| && resources[j].path == p && Digest(resources[j].data) == b[p];
      assert i == j;
    }
  }

  lemma NotHeld(resources: seq<Resource>, p: string, digest: Digest, indexes: map<string, nat>)
    requires DistinctPaths(resources)
    requires Indexed(resources, indexes)
    requires forall i :: 0 <= i < |resources| ==> resources[i].path in indexes
    requires p !in indexes || Digest(resources[indexes[p]].data) != digest
    ensures !Holds(resources, p, digest)
  {
    forall i | 0 <= i < |resources| && resources[i].path == p
      ensures Digest(resources[i].data) != digest
    {
    }
  }

  /** What is remembered about a graph that has just been resolved. */
  method Capture(package: Package, rootPath: string, nodes: seq<ResolvedOpus>, documents: Documents, encode: Encoder)
    returns (state: OpusState?)
    requires rootPath in documents && nodes != []
    ensures state != null <==>
            && (forall p :: p in documents ==> encode(documents[p]).Encoded?)
            && (forall p :: p in documents && p != rootPath ==> HasPath(package.resources, p))
    ensures state != null ==>
            && fresh(state) && state.Valid() && state.Settled(encode)
            && state.package == package && state.rootPath == rootPath && state.documents == documents && state.nodes == nodes
            && Unchanged(package.resources, state.Linked(), state.resourceHashes)
  {
    var canonical: map<string, Digest>, hashes: map<string, Digest> := map[], map[];
    var rest := documents.Keys;
    while rest != {}
      invariant rest <= documents.Keys
      invariant forall p :: p in canonical <==> p in documents && p !in rest
      invariant forall p :: p in hashes <==> p in documents && p != rootPath && p !in rest
      invariant forall p :: p in canonical ==> encode(documents[p]) == Encoded(canonical[p].of)
      invariant forall p :: p in hashes ==> Holds(package.resources, p, hashes[p])
      decreases |rest|
    {
      var p :| p in rest;
      var data := encode(documents[p]);
      if data.Unencodable? {
        return null;
      }
      canonical := canonical[p := Digest(data.data)];
      if p != rootPath {
        var found, bytes := Find(package, p);
        if !found {
          return null;
        }
        hashes := hashes[p := Digest(bytes)];
      }
      rest := rest - {p};
    }
    HeldPaths(package.resources, hashes);
    state := new OpusState(package, rootPath, documents, nodes, canonical, hashes);
  }

  lemma HeldPaths(resources: seq<Resource>, hashes: map<string, Digest>)
    requires forall p :: p in hashes ==> Holds(resources, p, hashes[p])
    ensures forall p :: p in hashes ==> HasPath(resources, p)
  {
    forall p | p in hashes
      ensures HasPath(resources, p)
    {
      assert Holds(resources, p, hashes[p]);
    }
  }

  method Find(package: Package, path: string) returns (found: bool, data: seq<byte>)
    ensures found <==> HasPath(package.resources, path)
    ensures found ==> Holds(package.resources, path, Digest(data))
  {
    found, data := false, [];
    for i := 0 to |package.resources|
      invariant found <==> exists k :: 0 <= k < i && package.resources[k].path == path
      invariant found ==> Holds(package.resources, path, Digest(data))
    {
      if package.resources[i].path == path {
        found, data := true, package.resources[i].data;
      }
    }
  }

  /** Resolving a package and writing it back without an edit always succeeds and changes nothing. */
  method ResolveAndSync(package: Package, w: World, rootPath: string, root: DocRef, encode: Encoder, ghost bound: nat)
    returns (resolved: bool, synced: bool)
    requires Typed(w) && Shallow(w, bound) && bound >= DocumentDepth.MAX_DEPTH && root < |w.arena| && w.arena[root].OpusDocument?
    requires Prepared(w.valid, package.rootFiles, package.resources) && RootPath(package.rootFiles) == rootPath
    requires package.document == root
    modifies package`resources, package`document
    ensures resolved ==> synced
    ensures package.resources == old(package.resources) && package.document == old(package.document)
  {
    hide Typed;
    hide Shallow;
    hide Prepared;
    PreparedRoot(w.valid, package.rootFiles, package.resources);
    var ok, r := Resolve(w, rootPath, root, bound);
    if !ok {
      return false, false;
    }
    var state := Capture(package, rootPath, r.nodes, r.documents, encode);
    if state == null {
      return false, false;
    }
    WholePointed(w, rootPath, r.Now());
    WholeCollectable(w, rootPath, r.Now());
    ghost var encoded;
    resolved := true;
    synced, encoded := state.Sync(w, encode);
  }

  lemma PreparedRoot(valid: string -> bool, rootFiles: seq<string>, resources: seq<Resource>)
    requires Prepared(valid, rootFiles, resources)
    ensures valid(RootPath(rootFiles))
  {
  }

  // A graph whose root has been exchanged

  const ROOT := "r"
  const LINKED := "q"

  /** Two documents that link to each other, at the paths "r" and "q". */
  function Pair(): World {
    World([OpusDocument(false, [Entry(None, Some(Link(0, LINKED)), None)]),
           OpusDocument(false, [Entry(None, Some(Link(1, ROOT)), None)])],
          map[LINKED := Decoding.Decoded(1)],
          (source: string, href: string) => Place(href, ""),
          (path: string) => true)
  }

  /** The resolved graph with its two nodes exchanged: the root node holds the linked document. */
  function Exchanged(): seq<ResolvedOpus> {
    [ResolvedOpus(LINKED, 1, [Linked(Link(1, ROOT), ROOT, "", 1)]),
     ResolvedOpus(ROOT, 0, [Linked(Link(0, LINKED), LINKED, "", 0)])]
  }

  function PairDocuments(): Documents {
    map[ROOT := 0, LINKED := 1]
  }

  /** Collecting accepts the exchanged graph, although its root is not the root document. */
  lemma ExchangedCollectable()
    ensures Pointed(Pair(), Exchanged()) && Collectable(Pair(), Exchanged(), PairDocuments())
    ensures Exchanged()[0].document != PairDocuments()[ROOT]
  {
    var w, nodes, documents := Pair(), Exchanged(), PairDocuments();
    forall k | 0 <= k < |nodes|
      ensures SoundNode(w, nodes[k], nodes, documents) && PointedNode(w, nodes, nodes[k])
    {
      assert k == 0 || k == 1;
    }
    ReachableRoot(nodes);
    assert Registers(nodes[0].content[0], ROOT) && DocRefs(nodes[0].content, ROOT);
    assert Registered(nodes, ROOT);
  }

  /** Syncing it replaces the root document of the package, and the next call is refused. */
  method ExchangedRootIsLost(package: Package, data: seq<byte>) returns (first: bool, second: bool)
    requires package.rootFiles == [ROOT] && package.resources == [Resource(LINKED, data)] && package.document == 0
    modifies package
    ensures first && !second && package.document == 1
  {
    hide Collectable;
    hide Pointed;
    ExchangedCollectable();
    var encode: Encoder := (d: DocRef) => Encoded(data);
    var digests := map[ROOT := Digest(data), LINKED := Digest(data)];
    var hashes := map[LINKED := Digest(data)];
    var state := new OpusState(package, ROOT, PairDocuments(), Exchanged(), digests, hashes);
    assert package.resources[0] == Resource(LINKED, data);
    assert Holds(package.resources, LINKED, Digest(data));
    ghost var encoded;
    first, encoded := state.Sync(Pair(), encode);
    second, encoded := state.Sync(Pair(), encode);
  }
}
