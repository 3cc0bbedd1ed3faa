/** What a complete inventory of an archive is. */
module ZipInventory {
  import opened Utf8
  import opened ZipFormat
  import opened HeapSort

  /** Path rules and file modes are decided outside; both are functions of the header. */
  datatype Policy = Policy(validPath: (seq<byte>, bool) -> bool, isDirectory: (nat, nat) -> bool, isSymlink: (nat, nat) -> bool)

  predicate EntryAllowed(policy: Policy, e: Entry) {
    && policy.validPath(e.name, policy.isDirectory(e.creator, e.attributes))
    && e.localOffset != NO_U32 && e.compressed != NO_U32 && e.uncompressed != NO_U32
    && !policy.isSymlink(e.creator, e.attributes)
  }

  predicate EntryFramed(data: seq<byte>, e: Entry, limit: nat) {
    LocalRange(data, e, limit).Range? && !HasZip64Extra(LocalExtra(data, e)) && !HasZip64Extra(e.extra)
  }

  predicate EntryOk(data: seq<byte>, policy: Policy, e: Entry, limit: nat) {
    EntryAllowed(policy, e) && EntryFramed(data, e, limit)
  }

  function AllIndices(n: nat): seq<nat> {
    seq(n, i requires 0 <= i < n => i)
  }

  /** All indices below `n`, each once. */
  ghost predicate Enumerates(order: seq<nat>, n: nat) {
    multiset(order) == multiset(AllIndices(n))
  }

  /** The ranges, taken in the given order, follow one another from 0 to `limit`. */
  ghost predicate Tiles(starts: seq<nat>, ends: seq<nat>, order: seq<nat>, limit: nat) {
    && |starts| == |ends| && Enumerates(order, |starts|)
    && (forall k {:trigger Before(ends, order, k)} :: 0 <= k < |order| ==>
          order[k] < |starts| && starts[order[k]] == Before(ends, order, k))
    && Before(ends, order, |order|) == limit
  }

  /** Where the range at position `k` of the order has to begin. */
  function Before(ends: seq<nat>, order: seq<nat>, k: nat): nat {
    if 0 < k <= |order| && order[k - 1] < |ends| then ends[order[k - 1]] else 0
  }

  function Entries(data: seq<byte>, records: seq<nat>): (entries: seq<Entry>)
    requires forall i :: 0 <= i < |records| ==> records[i] + 46 <= |data| && records[i] + 46 + VariableSize(data, records[i]) <= |data|
  {
    seq(|records|, i requires 0 <= i < |records| => Central(data, records[i]))
  }

  function Starts(entries: seq<Entry>): seq<nat> {
    seq(|entries|, i requires 0 <= i < |entries| => entries[i].localOffset)
  }

  function Ends(data: seq<byte>, entries: seq<Entry>, limit: nat): seq<nat> {
    seq(|entries|, i requires 0 <= i < |entries| =>
      var r := LocalRange(data, entries[i], limit); if r.Range? then r.end else 0)
  }

  ghost predicate DistinctNames(entries: seq<Entry>) {
    forall i, j :: 0 <= i < j < |entries| ==> entries[i].name != entries[j].name
  }

  ghost predicate EntriesOk(data: seq<byte>, policy: Policy, entries: seq<Entry>, limit: nat) {
    (forall i :: 0 <= i < |entries| ==> EntryOk(data, policy, entries[i], limit)) && DistinctNames(entries)
  }

  /** The bytes are exactly: the entries one after another, the directory, the end record. */
  ghost predicate Inventory(data: seq<byte>, policy: Policy, end: End, entries: seq<Entry>) {
    && EndAt(data, end) && end.offset <= |data|
    && (exists records :: Directory(data, end.start, end.offset, records) && Described(data, records, entries))
    && |entries| % 0x10000 == end.count
    && EntriesOk(data, policy, entries, end.start)
    && exists order :: Tiles(Starts(entries), Ends(data, entries, end.start), order, end.start)
  }

  ghost predicate Described(data: seq<byte>, records: seq<nat>, entries: seq<Entry>) {
    && (forall i :: 0 <= i < |records| ==> records[i] + 46 <= |data| && records[i] + 46 + VariableSize(data, records[i]) <= |data|)
    && entries == Entries(data, records)
  }

  /** A directory determines its entries, and they can all be read from the bytes. */
  lemma {:induction false} DirectoryReadable(data: seq<byte>, p: nat, to: nat, end: nat, records: seq<nat>)
    requires end <= |data| && Records(data, p, to, end, records)
    ensures forall i :: 0 <= i < |records| ==> records[i] + 46 <= |data| && records[i] + 46 + VariableSize(data, records[i]) <= |data|
    decreases |records|
  {
    if records != [] {
      DirectoryReadable(data, p + 46 + VariableSize(data, p), to, end, records[1..]);
      assert forall i :: 1 <= i < |records| ==> records[i] == records[1..][i - 1];
    }
  }

  /** An archive has at most one inventory. */
  lemma InventoryUnique(data: seq<byte>, policy: Policy, end: End, records: seq<nat>, end': End, entries': seq<Entry>)
    requires EndAt(data, end) && end.offset <= |data| && Directory(data, end.start, end.offset, records)
    requires Inventory(data, policy, end', entries')
    ensures end' == end && Described(data, records, entries')
  {
    hide U16;
    hide U32;
    hide Records;
    hide EntriesOk;
    hide Tiles;
    hide VariableSize;
    hide Entries;
    hide Framed;
    hide Ordinary;
    var records' :| Directory(data, end'.start, end'.offset, records') && Described(data, records', entries');
    RecordsInside(data, end.start, end.offset, end.offset, records, records');
    RecordsInside(data, end.start, end.offset, end.offset, records', records);
    assert records == records';
  }

  // The ranges of a tiling do not overlap and leave no byte out

  lemma {:induction false} TilesAscend(starts: seq<nat>, ends: seq<nat>, order: seq<nat>, limit: nat, j: nat, k: nat)
    requires Tiles(starts, ends, order, limit) && (forall i :: 0 <= i < |starts| ==> starts[i] < ends[i])
    requires j < k < |order|
    ensures order[j] < |starts| && order[k] < |starts| && ends[order[j]] <= starts[order[k]]
    decreases k
  {
    EnumeratesAll(order, |starts|);
    if j < k - 1 {
      TilesAscend(starts, ends, order, limit, j, k - 1);
    }
    assert starts[order[k]] == Before(ends, order, k);
  }

  /** Every byte before the directory belongs to exactly one entry. */
  lemma TilesCover(starts: seq<nat>, ends: seq<nat>, order: seq<nat>, limit: nat, at: nat)
    requires Tiles(starts, ends, order, limit) && (forall i :: 0 <= i < |starts| ==> starts[i] < ends[i])
    requires at < limit
    ensures exists i :: 0 <= i < |starts| && starts[i] <= at < ends[i]
    ensures forall i, j :: 0 <= i < |starts| && 0 <= j < |starts| && starts[i] <= at < ends[i] && starts[j] <= at < ends[j] ==> i == j
  {
    FindTile(starts, ends, order, limit, at, |order|);
    EnumeratesAll(order, |starts|);
    forall i, j | 0 <= i < |starts| && 0 <= j < |starts| && starts[i] <= at < ends[i] && starts[j] <= at < ends[j]
      ensures i == j
    {
      assert i in order && j in order;
      var p :| 0 <= p < |order| && order[p] == i;
      var q :| 0 <= q < |order| && order[q] == j;
      if p < q {
        TilesAscend(starts, ends, order, limit, p, q);
      } else if q < p {
        TilesAscend(starts, ends, order, limit, q, p);
      }
    }
  }

  lemma {:induction false} FindTile(starts: seq<nat>, ends: seq<nat>, order: seq<nat>, limit: nat, at: nat, k: nat)
    requires Tiles(starts, ends, order, limit) && k <= |order| && at < Before(ends, order, k)
    ensures exists i :: 0 <= i < |starts| && starts[i] <= at < ends[i]
    decreases k
  {
    EnumeratesAll(order, |starts|);
    var i := order[k - 1];
    assert starts[i] == Before(ends, order, k - 1);
    if at < starts[i] {
      FindTile(starts, ends, order, limit, at, k - 1);
    }
  }

  lemma EnumeratesAll(order: seq<nat>, n: nat)
    requires Enumerates(order, n)
    ensures |order| == n
    ensures forall i :: 0 <= i < n ==> i in order
    ensures forall k :: 0 <= k < |order| ==> order[k] < n
    ensures forall j, k :: 0 <= j < k < |order| ==> order[j] != order[k]
  {
    assert |order| == |multiset(order)| == |AllIndices(n)|;
    forall i | 0 <= i < n
      ensures i in order
    {
      assert AllIndices(n)[i] in multiset(AllIndices(n));
      assert i in multiset(order);
    }
    forall k | 0 <= k < |order|
      ensures order[k] < n
    {
      assert order[k] in multiset(order) && order[k] in multiset(AllIndices(n));
    }
    forall j, k | 0 <= j < k < |order|
      ensures order[j] != order[k]
    {
      var rest := order[..k] + order[k + 1..];
      assert order == order[..k] + [order[k]] + order[k + 1..];
      assert multiset(order) == multiset(rest) + multiset{order[k]};
      OnceInOrder(n, order[k]);
      assert rest[j] == order[j];
      assert order[k] !in multiset(rest);
    }
  }

  lemma {:induction false} OnceInOrder(n: nat, x: nat)
    ensures multiset(AllIndices(n))[x] == if x < n then 1 else 0
  {
    if n > 0 {
      OnceInOrder(n - 1, x);
      assert AllIndices(n) == AllIndices(n - 1) + [n - 1];
    }
  }

  /** A sorted order and a tiling of the same ranges are the same order, so sorting by start
      finds the tiling if there is one. */
  lemma {:induction false} SortedIsTiling(starts: seq<nat>, ends: seq<nat>, sorted: seq<nat>, order: seq<nat>, limit: nat, k: nat)
    requires Tiles(starts, ends, order, limit) && (forall i :: 0 <= i < |starts| ==> starts[i] < ends[i])
    requires Enumerates(sorted, |starts|) && k <= |order|
    requires forall i, j :: 0 <= i <= j < |sorted| ==> AtLeast(starts, sorted[j], sorted[i])
    ensures |sorted| == |order| && forall i :: 0 <= i < k ==> sorted[i] == order[i]
    decreases k
  {
    EnumeratesAll(sorted, |starts|);
    EnumeratesAll(order, |starts|);
    if k > 0 {
      var last := k - 1;
      SortedIsTiling(starts, ends, sorted, order, limit, last);
      assert order[last] in sorted && sorted[last] in order;
      var m :| 0 <= m < |sorted| && sorted[m] == order[last];
      var l :| 0 <= l < |order| && order[l] == sorted[last];
      assert m >= last && l >= last;
      assert AtLeast(starts, sorted[m], sorted[last]);
      if l > last {
        TilesAscend(starts, ends, order, limit, last, l);
      }
    }
  }

  lemma SortedTiles(starts: seq<nat>, ends: seq<nat>, sorted: seq<nat>, order: seq<nat>, limit: nat)
    requires Tiles(starts, ends, order, limit) && (forall i :: 0 <= i < |starts| ==> starts[i] < ends[i])
    requires Enumerates(sorted, |starts|) && Sorted(sorted, starts)
    ensures Tiles(starts, ends, sorted, limit)
  {
    SortedIsTiling(starts, ends, sorted, order, limit, |order|);
    assert sorted == order;
  }
}
