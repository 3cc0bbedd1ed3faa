/** The observer that builds the inventory of an archive from its bytes. */
module ZipArchives {
  import opened Accounts
  import opened Utf8
  import opened ZipFormat
  import opened ZipInventory
  import opened HeapSort

  /** `Refused` is a framing, policy or capability error; `Stopped` a budget or cancellation. */
  datatype Finding<+T> = Ok(value: T) | Refused | Stopped

  datatype Observed = Observed(central: Entry, range: Range, physicalOrder: int)

  class Archive {
    const account: Account
    const policy: Policy
    const data: seq<byte>
    var entries: seq<Observed>           // in directory order
    var physical: array<nat>             // entry indices in file order
    var index: map<seq<byte>, nat>
    var end: End
    var inventoryComplete: bool
    var retained: nat

    constructor (account: Account, policy: Policy, data: seq<byte>)
      ensures this.account == account && this.policy == policy && this.data == data
      ensures !inventoryComplete && retained == 0 && fresh(physical)
    {
      this.account, this.policy, this.data := account, policy, data;
      entries, index, end, inventoryComplete, retained := [], map[], End(0, 0, 0), false, 0;
      physical := new nat[0];
    }

    method Reserve(n: nat) returns (ok: bool)
      modifies this`retained, account
      ensures retained == old(retained) + (if ok then n else 0)
      ensures account.usage.buffered - retained == old(account.usage.buffered - retained)
      ensures account.ample ==> ok
    {
      ok := account.Charge(Buffered, n);
      if ok {
        retained := retained + n;
      }
    }

    // The end record

    /** The choice of the library reader: the last signature near the end of the file, if its
        comment fits. */
    method LibraryEnd() returns (out: Finding<int>)
      ensures out.Ok? ==>
                && -1 <= out.value
                && (out.value >= 0 ==> LastSignature(data, out.value))
                && (out.value < 0 ==> forall p: nat :: LastSignature(data, p) ==>
                      p + 65 * 1024 < |data| || p + 22 + U16(data, p + 20) > |data|)
      ensures account.ample ==> out.Ok?
      ensures !out.Refused?
    {
      hide U16;
      hide U32;
      var window := 1024;
      while true
        invariant window == 1024 || window == 65 * 1024
        invariant window == 65 * 1024 ==> |data| > 1024
        decreases 65 * 1024 - window
      {
        var start := if |data| < window then 0 else |data| - window;
        var p := |data| - 22;
        var overflow := false;
        while p >= start && !overflow
          invariant start - 1 <= p || |data| < 22
          invariant p <= |data| - 22
          invariant !overflow ==> forall q: nat :: p < q && q + 22 <= |data| ==> !SignatureAt(data, q, END_SIGNATURE)
          invariant overflow ==> p >= 0 && LastSignature(data, p) && p + 22 + U16(data, p + 20) > |data|
          decreases p, !overflow
        {
          var admitted := account.Admit();
          if !admitted {
            return Stopped;
          }
          if SignatureAt(data, p, END_SIGNATURE) {
            if p + 22 + U16(data, p + 20) <= |data| {
              return Ok(p);
            }
            overflow := true;
          } else {
            p := p - 1;
          }
        }
        if start == 0 || window > 1024 {
          return Ok(-1);
        }
        window := 65 * 1024;
      }
    }

    /** The end record is found exactly if the last signature of the file frames it. */
    method EndRecord() returns (out: Finding<End>)
      modifies this`retained, account
      ensures out.Ok? ==> EndAt(data, out.value)
      ensures out.Refused? ==> forall e :: !EndAt(data, e)
      ensures account.ample ==> !out.Stopped?
      ensures account.usage.buffered - retained == old(account.usage.buffered - retained)
    {
      hide U16;
      hide U32;
      hide U64;
      hide Framed;
      hide EndsFile;
      hide Ordinary;
      hide LastSignature;
      hide EndAt;
      hide FramedZip64End;
      EndWindow(data);
      var low := if |data| < 65535 + 22 then 0 else |data| - (65535 + 22);
      var p := |data| - 22;
      while p >= low
        invariant p <= |data| - 22
        invariant forall e :: EndAt(data, e) ==> e.offset <= p
        invariant account.usage.buffered - retained == old(account.usage.buffered - retained)
        decreases p
      {
        EndFacts(data, p);
        var admitted := account.Admit();
        if !admitted {
          return Stopped;
        }
        if EndsFile(data, p) {
          if Framed(data, p) {
            out := AcceptEnd(p);
            return;
          }
          if FramedZip64End(data, p) {
            return Refused;
          }
        }
        p := p - 1;
      }
      out := Refused;
    }

    method AcceptEnd(p: nat) returns (out: Finding<End>)
      requires Framed(data, p) && forall e :: EndAt(data, e) ==> e.offset <= p
      modifies this`retained, account
      ensures out.Ok? ==> EndAt(data, out.value)
      ensures out.Refused? ==> forall e :: !EndAt(data, e)
      ensures account.ample ==> !out.Stopped?
      ensures account.usage.buffered - retained == old(account.usage.buffered - retained)
    {
      hide U16;
      hide U32;
      EndFacts(data, p);
      if !Ordinary(data, p) {
        return Refused;
      }
      if !account.Fits(|data| - p - 22) {
        return Stopped;
      }
      var library := LibraryEnd();
      if library.Stopped? {
        return Stopped;
      }
      if library.value != p {
        return Refused;
      }
      var reserved := Reserve(|data| - p - 22);
      out := if reserved then Ok(End(p, U32(data, p + 16), U16(data, p + 10))) else Stopped;
    }

    // The central directory, read twice

    /** The first pass walks the exact range of the directory and only counts. */
    method CountRecords(end: End) returns (out: Finding<nat>, variable: nat, ghost records: seq<nat>)
      requires end.start <= end.offset <= |data|
      ensures out.Ok? ==> Directory(data, end.start, end.offset, records) && out.value == |records|
      ensures out.Refused? ==> forall rs :: !Directory(data, end.start, end.offset, rs)
      ensures account.ample ==> !out.Stopped?
    {
      hide U16;
      hide U32;
      hide Records;
      var p, count := end.start, 0;
      variable, records := 0, [];
      NoRecords(data, p, end.offset);
      while p < end.offset
        invariant end.start <= p <= end.offset && count == |records|
        invariant Records(data, end.start, p, end.offset, records)
        decreases end.offset - p
      {
        if !RecordAt(data, p, end.offset) {
          NotThere(data, end.start, p, end.offset, records);
          return Refused, variable, records;
        }
        var total := VariableSize(data, p);
        var admitted := account.Admit();
        if !admitted || !account.Fits(U16(data, p + 28)) || !account.Fits(U16(data, p + 30)) || !account.Fits(U16(data, p + 32)) {
          return Stopped, variable, records;
        }
        RecordsAppend(data, end.start, p, end.offset, records);
        records := records + [p];
        count, variable, p := count + 1, variable + total, p + 46 + total;
      }
      out := Ok(count);
    }

    /** Reads the local side of an entry and compares it with the central side. */
    method ObserveLocal(e: Entry, limit: nat) returns (out: Finding<Range>)
      requires limit <= |data|
      modifies this`retained, account
      ensures out.Ok? ==> out.value == LocalRange(data, e, limit) && out.value.Range?
      ensures out.Refused? ==> LocalRange(data, e, limit).Unframed?
      ensures account.ample ==> !out.Stopped?
      ensures account.usage.buffered - retained == old(account.usage.buffered - retained)
    {
      hide U32;
      hide Bit;
      var at := e.localOffset;
      if at + 30 > |data| || at + 30 > limit || U32(data, at) != LOCAL_SIGNATURE {
        return Refused;
      }
      var n, x := U16(data, at + 26), U16(data, at + 28);
      if n + x > limit - at - 30 {
        return Refused;
      }
      var admitted := account.Admit();
      if !admitted || !account.Fits(n) || !account.Fits(x) {
        return Stopped;
      }
      var reserved := Reserve(n + x);
      if !reserved {
        return Stopped;
      }
      if data[at + 30..at + 30 + n] != e.name || U16(data, at + 8) != e.compression || !SameFlags(U16(data, at + 6), e.flags) {
        return Refused;
      }
      if U32(data, at + 18) == NO_U32 || U32(data, at + 22) == NO_U32 || !SizesAgree(data, e) {
        return Refused;
      }
      assert LocalHeaderAgrees(data, e, limit);
      var bodyStart := at + 30 + n + x;
      if e.compressed > limit - bodyStart {
        return Refused;
      }
      var bodyEnd := bodyStart + e.compressed;
      if !Descriptor(e) {
        return Ok(Range(bodyStart, bodyEnd, bodyEnd));
      }
      if bodyEnd + 12 > limit {
        return Refused;
      }
      var signed := U32(data, bodyEnd) == DESCRIPTOR_SIGNATURE;
      if signed && DescriptorAt(data, e, bodyEnd, limit) {
        return Refused;
      }
      var size := if signed then 16 else 12;
      if !DescriptorAt(data, e, bodyEnd + size - 12, limit) {
        return Refused;
      }
      out := Ok(Range(bodyStart, bodyEnd, bodyEnd + size));
    }

    /** Whether the blocks of an extra field reach a ZIP64 block, and otherwise whether they fill it. */
    method CheckExtra(extra: seq<byte>) returns (out: Finding<bool>)
      ensures out.Ok? ==> !HasZip64Extra(extra) && out.value == FramedExtra(extra)
      ensures out.Refused? ==> HasZip64Extra(extra)
      ensures account.ample ==> !out.Stopped?
    {
      hide U16;
      var p := 0;
      assert extra[0..] == extra;
      while p + 4 <= |extra|
        invariant p <= |extra| && HasZip64Extra(extra) == HasZip64Extra(extra[p..]) && FramedExtra(extra) == FramedExtra(extra[p..])
        decreases |extra| - p
      {
        var admitted := account.Admit();
        if !admitted {
          return Stopped;
        }
        SliceU16(extra, p, 0);
        SliceU16(extra, p, 2);
        var n := U16(extra, p + 2);
        if U16(extra, p) == 1 {
          return Refused;
        }
        if n > |extra| - p - 4 {
          return Ok(false);
        }
        assert extra[p..][4 + n..] == extra[p + 4 + n..];
        p := p + 4 + n;
      }
      out := Ok(p == |extra|);
    }

    /** The second pass keeps every record and frames its local side. */
    method ReadEntries(end: End, count: nat, ghost records: seq<nat>, ghost all: seq<Entry>) returns (out: Finding<()>)
      requires end.start <= end.offset <= |data| && count == |records|
      requires Directory(data, end.start, end.offset, records) && Described(data, records, all)
      modifies this`entries, this`index, this`retained, account
      ensures out.Ok? ==>
                && EntriesOk(data, policy, all, end.start)
                && Keeps(entries, all, data, end.start) && Indexes(index, all)
      ensures out.Refused? ==> !EntriesOk(data, policy, all, end.start)
      ensures account.ample ==> !out.Stopped?
      ensures account.usage.buffered - retained == old(account.usage.buffered - retained)
    {
      hide Keeps;
      hide Indexes;
      hide EntriesOk;
      hide LocalRange;
      hide Records;
      hide RecordAt;
      hide Central;
      hide EntryOk;
      hide VariableSize;
      var p: nat := end.start;
      entries, index := [], map[];
      assert all[..0] == [];
      NothingKept(data, policy, end.start);
      NoRecords(data, p, end.offset);
      for i := 0 to count
        invariant p <= end.offset && Records(data, end.start, p, end.offset, records[..i])
        invariant Keeps(entries, all[..i], data, end.start) && Indexes(index, all[..i])
        invariant EntriesOk(data, policy, all[..i], end.start)
        invariant account.usage.buffered - retained == old(account.usage.buffered - retained)
      {
        RecordsInside(data, end.start, p, end.offset, records[..i], records);
        RecordBounds(data, p, end.offset);
        RecordsAppend(data, end.start, p, end.offset, records[..i]);
        assert records[..i] + [p] == records[..i + 1];
        var e := Central(data, p);
        assert e == all[i];
        EntriesStep(data, policy, all, i, end.start);
        var admitted := account.Admit();
        if !admitted {
          return Stopped;
        }
        if e.name in index {
          NameTaken(index, all, i);
          return Refused;
        }
        NameFree(index, all, i);
        var range := ObserveEntry(e, end.start);
        if !range.Ok? {
          return if range.Stopped? then Stopped else Refused;
        }
        IndexStep(index, all, i);
        KeepStep(entries, all, i, data, end.start, Observed(e, range.value, -1));
        index := index[e.name := i];
        entries := entries + [Observed(e, range.value, -1)];
        p := p + 46 + VariableSize(data, p);
      }
      assert all[..count] == all;
      out := Ok(());
    }

    /** The rules for one entry, in the order they are applied. */
    method ObserveEntry(e: Entry, limit: nat) returns (out: Finding<Range>)
      requires limit <= |data|
      modifies this`retained, account
      ensures out.Ok? ==> EntryOk(data, policy, e, limit) && out.value == LocalRange(data, e, limit) && out.value.Range?
      ensures out.Refused? ==> !EntryOk(data, policy, e, limit)
      ensures account.ample ==> !out.Stopped?
      ensures account.usage.buffered - retained == old(account.usage.buffered - retained)
    {
      hide HasZip64Extra;
      if !policy.validPath(e.name, policy.isDirectory(e.creator, e.attributes)) {
        return Refused;
      }
      if e.localOffset == NO_U32 || e.compressed == NO_U32 || e.uncompressed == NO_U32 {
        return Refused;
      }
      out := ObserveLocal(e, limit);
      if !out.Ok? {
        return;
      }
      var extra := CheckExtra(LocalExtra(data, e));
      if extra.Ok? {
        extra := CheckExtra(e.extra);
      }
      if !extra.Ok? {
        return if extra.Stopped? then Stopped else Refused;
      }
      if policy.isSymlink(e.creator, e.attributes) {
        return Refused;
      }
    }

    // File order

    /** Sorts the entries by local offset and accepts them only if they tile the local area. */
    method OrderEntries(limit: nat, ghost all: seq<Entry>) returns (out: Finding<()>)
      requires Keeps(entries, all, data, limit) && limit <= |data|
      modifies this`entries, this`physical
      ensures fresh(physical)
      ensures out.Ok? ==>
                && Keeps(entries, all, data, limit)
                && Tiles(Starts(all), Ends(data, all, limit), physical[..], limit)
                && Ranked(entries, physical[..])
      ensures out.Refused? ==> forall order :: !Tiles(Starts(all), Ends(data, all, limit), order, limit)
      ensures account.ample ==> !out.Stopped?
    {
      hide LocalRange;
      hide Keeps;
      hide Tiles;
      hide Ranked;
      hide Sorted;
      hide Enumerates;
      var n := |entries|;
      KeepsSize(entries, all, data, limit);
      var order := new nat[n](i => i);
      assert order[..] == AllIndices(n);
      physical := order;
      var keys := Offsets(entries);
      KeepsStarts(entries, all, data, limit);
      var sorted := SortPhysical(order, keys, account);
      if !sorted {
        return Stopped;
      }
      assert order[..] == physical[..];
      SortedOrder(order[..], keys);
      out := RankEntries(order[..], limit, all);
    }

    method RankEntries(order: seq<nat>, limit: nat, ghost all: seq<Entry>) returns (out: Finding<()>)
      requires Keeps(entries, all, data, limit) && Enumerates(order, |all|) && Sorted(order, Starts(all))
      modifies this`entries
      ensures out.Ok? ==>
                && Keeps(entries, all, data, limit) && Ranked(entries, order)
                && Tiles(Starts(all), Ends(data, all, limit), order, limit)
      ensures out.Refused? ==> forall order' :: !Tiles(Starts(all), Ends(data, all, limit), order', limit)
      ensures account.ample ==> !out.Stopped?
    {
      hide LocalRange;
      hide Enumerates;
      hide Sorted;
      ghost var starts, ends := Starts(all), Ends(data, all, limit);
      EnumeratesAll(order, |all|);
      var next := 0;
      for rank := 0 to |order|
        invariant Keeps(entries, all, data, limit)
        invariant forall k {:trigger Before(ends, order, k)} :: 0 <= k < rank ==> starts[order[k]] == Before(ends, order, k)
        invariant next == Before(ends, order, rank)
        invariant forall k :: 0 <= k < rank ==> entries[order[k]].physicalOrder == k
      {
        var admitted := account.Admit();
        if !admitted {
          return Stopped;
        }
        var i := order[rank];
        if entries[i].central.localOffset != next {
          NoTiling(data, all, order, limit, rank);
          return Refused;
        }
        entries := entries[i := entries[i].(physicalOrder := rank)];
        next := entries[i].range.end;
      }
      if next != limit {
        NoTiling(data, all, order, limit, |order|);
        return Refused;
      }
      out := Ok(());
    }

    /** The inventory is complete exactly if the bytes are an inventory: with ample budget
        nothing else is refused, and whatever is accepted is one. */
    method Observe() returns (out: Finding<()>)
      requires !inventoryComplete
      modifies this, account
      ensures inventoryComplete <==> out.Ok?
      ensures inventoryComplete ==> Complete()
      ensures out.Refused? ==> forall e, all :: !Inventory(data, policy, e, all)
      ensures account.ample ==> !out.Stopped?
      ensures account.usage.buffered - retained == old(account.usage.buffered - retained)
    {
      hide EndAt;
      hide Inventory;
      hide Records;
      hide EntriesOk;
      hide Keeps;
      hide Tiles;
      hide Ranked;
      hide Indexes;
      hide Described;
      EndOfInventory(data, policy);
      var found := EndRecord();
      if !found.Ok? {
        return if found.Stopped? then Stopped else Refused;
      }
      end := found.value;
      EndBounds(data, end);
      var count, variable, records := CountRecords(end);
      if !count.Ok? {
        return if count.Stopped? then Stopped else Refused;
      }
      DirectoryReadable(data, end.start, end.offset, end.offset, records);
      ghost var all := Entries(data, records);
      OnlyInventory(data, policy, end, records, all);
      if count.value % 0x10000 != end.count {
        return Refused;
      }
      var reserved := Reserve(variable * 4 + 0x40000 + count.value * 2048);
      if !reserved {
        return Stopped;
      }
      out := ReadEntries(end, count.value, records, all);
      if out.Ok? {
        out := OrderEntries(end.start, all);
      }
      if out.Ok? {
        assert Directory(data, end.start, end.offset, records) && Described(data, records, all);
        MakeInventory(data, policy, end, records, all, physical[..]);
        inventoryComplete := true;
      }
    }

    /** What holds of a complete inventory. */
    ghost predicate Complete()
      reads this, physical
    {
      exists all ::
        && Inventory(data, policy, end, all)
        && Keeps(entries, all, data, end.start) && Indexes(index, all)
        && Tiles(Starts(all), Ends(data, all, end.start), physical[..], end.start)
        && Ranked(entries, physical[..])
    }
  }

  lemma EndOfInventory(data: seq<byte>, policy: Policy)
    ensures forall e, all :: Inventory(data, policy, e, all) ==>
              && EndAt(data, e) && e.offset <= |data| && EntriesOk(data, policy, all, e.start) && |all| % 0x10000 == e.count
              && (exists order :: Tiles(Starts(all), Ends(data, all, e.start), order, e.start))
              && (exists records :: Directory(data, e.start, e.offset, records))
  {
    hide EndAt;
    hide EntriesOk;
    hide Tiles;
    hide Records;
    hide Described;
  }

  lemma EndBounds(data: seq<byte>, end: End)
    requires EndAt(data, end)
    ensures end.start <= end.offset <= |data|
    ensures forall e :: EndAt(data, e) ==> e == end
  {
  }

  lemma OnlyInventory(data: seq<byte>, policy: Policy, end: End, records: seq<nat>, all: seq<Entry>)
    requires EndAt(data, end) && end.offset <= |data| && Directory(data, end.start, end.offset, records)
    requires forall i :: 0 <= i < |records| ==> records[i] + 46 <= |data| && records[i] + 46 + VariableSize(data, records[i]) <= |data|
    requires all == Entries(data, records)
    ensures Described(data, records, all) && |all| == |records|
    ensures forall e, entries :: Inventory(data, policy, e, entries) ==> e == end && entries == all
  {
    hide EndAt;
    hide Inventory;
    hide Records;
    forall e, entries | Inventory(data, policy, e, entries)
      ensures e == end && entries == all
    {
      InventoryUnique(data, policy, end, records, e, entries);
    }
  }

  lemma MakeInventory(data: seq<byte>, policy: Policy, end: End, records: seq<nat>, all: seq<Entry>, order: seq<nat>)
    requires EndAt(data, end) && end.offset <= |data| && Directory(data, end.start, end.offset, records)
    requires Described(data, records, all) && |all| % 0x10000 == end.count && EntriesOk(data, policy, all, end.start)
    requires Tiles(Starts(all), Ends(data, all, end.start), order, end.start)
    ensures Inventory(data, policy, end, all)
  {
    hide EndAt;
    hide EntriesOk;
    hide Tiles;
    hide Records;
    hide Described;
  }

  /** The rank kept in an entry inverts the file order. */
  ghost predicate Ranked(entries: seq<Observed>, order: seq<nat>) {
    forall k :: 0 <= k < |order| ==> order[k] < |entries| && entries[order[k]].physicalOrder == k
  }

  lemma KeepsSize(entries: seq<Observed>, all: seq<Entry>, data: seq<byte>, limit: nat)
    requires Keeps(entries, all, data, limit)
    ensures |entries| == |all|
  {
  }

  function Offsets(entries: seq<Observed>): seq<nat> {
    seq(|entries|, i requires 0 <= i < |entries| => entries[i].central.localOffset)
  }

  lemma KeepsStarts(entries: seq<Observed>, all: seq<Entry>, data: seq<byte>, limit: nat)
    requires Keeps(entries, all, data, limit)
    ensures Offsets(entries) == Starts(all)
  {
  }

  lemma SortedOrder(order: seq<nat>, keys: seq<nat>)
    requires multiset(order) == multiset(AllIndices(|keys|)) && Sorted(order, keys)
    ensures Enumerates(order, |keys|)
  {
  }

  /** If the sorted order fails to tile at some rank, no order tiles. */
  lemma NoTiling(data: seq<byte>, all: seq<Entry>, order: seq<nat>, limit: nat, rank: nat)
    requires (forall i :: 0 <= i < |all| ==> LocalRange(data, all[i], limit).Range?)
    requires Enumerates(order, |all|) && Sorted(order, Starts(all)) && rank <= |order|
    requires var starts, ends := Starts(all), Ends(data, all, limit);
             if rank < |order| then order[rank] < |all| && starts[order[rank]] != Before(ends, order, rank)
             else Before(ends, order, rank) != limit
    ensures forall order' :: !Tiles(Starts(all), Ends(data, all, limit), order', limit)
  {
    hide LocalRange;
    var starts, ends := Starts(all), Ends(data, all, limit);
    forall i | 0 <= i < |all|
      ensures starts[i] < ends[i]
    {
      assert LocalRange(data, all[i], limit).Range?;
    }
    assert rank < |order| ==> Before(ends, order, rank) != starts[order[rank]];
    assert !Tiles(starts, ends, order, limit);
    forall order'
      ensures !Tiles(starts, ends, order', limit)
    {
      if Tiles(starts, ends, order', limit) {
        SortedTiles(starts, ends, order, order', limit);
      }
    }
  }

  /** The observed entries are the central ones with their local ranges. */
  ghost predicate Keeps(entries: seq<Observed>, all: seq<Entry>, data: seq<byte>, limit: nat) {
    && |entries| == |all|
    && forall i :: 0 <= i < |all| ==>
         entries[i].central == all[i] && entries[i].range == LocalRange(data, all[i], limit) && entries[i].range.Range?
  }

  /** The index inverts the entry list. */
  ghost predicate Indexes(index: map<seq<byte>, nat>, all: seq<Entry>) {
    && (forall i :: 0 <= i < |all| ==> all[i].name in index && index[all[i].name] == i)
    && (forall name :: name in index ==> index[name] < |all| && all[index[name]].name == name)
  }

  lemma NothingKept(data: seq<byte>, policy: Policy, limit: nat)
    ensures Keeps([], [], data, limit) && Indexes(map[], []) && EntriesOk(data, policy, [], limit)
  {
  }

  lemma RecordBounds(data: seq<byte>, p: nat, end: nat)
    requires end <= |data| && RecordAt(data, p, end)
    ensures p + 46 <= |data| && p + 46 + VariableSize(data, p) <= end
  {
  }

  lemma EntriesStep(data: seq<byte>, policy: Policy, all: seq<Entry>, i: nat, limit: nat)
    requires i < |all|
    ensures && EntriesOk(data, policy, all[..i], limit) && EntryOk(data, policy, all[i], limit)
            && (forall j :: 0 <= j < i ==> all[j].name != all[i].name)
            ==> EntriesOk(data, policy, all[..i + 1], limit)
    ensures EntriesOk(data, policy, all, limit) ==>
              EntryOk(data, policy, all[i], limit) && forall j :: 0 <= j < i ==> all[j].name != all[i].name
  {
    hide EntryOk;
    var more := all[..i + 1];
    assert forall j :: 0 <= j < i ==> more[j] == all[..i][j] == all[j];
    assert more[i] == all[i];
  }

  lemma NameTaken(index: map<seq<byte>, nat>, all: seq<Entry>, i: nat)
    requires i < |all| && Indexes(index, all[..i]) && all[i].name in index
    ensures exists j :: 0 <= j < i && all[j].name == all[i].name
  {
    var j := index[all[i].name];
    assert all[..i][j] == all[j];
  }

  lemma NameFree(index: map<seq<byte>, nat>, all: seq<Entry>, i: nat)
    requires i < |all| && Indexes(index, all[..i]) && all[i].name !in index
    ensures forall j :: 0 <= j < i ==> all[j].name != all[i].name
  {
    forall j | 0 <= j < i
      ensures all[j].name != all[i].name
    {
      assert all[..i][j] == all[j];
    }
  }

  lemma IndexStep(index: map<seq<byte>, nat>, all: seq<Entry>, i: nat)
    requires i < |all| && Indexes(index, all[..i]) && all[i].name !in index
    ensures Indexes(index[all[i].name := i], all[..i + 1])
  {
    var more := all[..i + 1];
    assert forall j :: 0 <= j < i ==> more[j] == all[..i][j] == all[j];
    assert more[i] == all[i];
  }

  lemma KeepStep(entries: seq<Observed>, all: seq<Entry>, i: nat, data: seq<byte>, limit: nat, next: Observed)
    requires i < |all| && Keeps(entries, all[..i], data, limit)
    requires next.central == all[i] && next.range == LocalRange(data, all[i], limit) && next.range.Range?
    ensures Keeps(entries + [next], all[..i + 1], data, limit)
  {
    hide LocalRange;
    var more := all[..i + 1];
    assert forall j :: 0 <= j < i ==> more[j] == all[..i][j] == all[j];
    assert more[i] == all[i];
  }

  lemma SliceU16(data: seq<byte>, p: nat, at: nat)
    requires p + at + 2 <= |data|
    ensures U16(data[p..], at) == U16(data, p + at)
  {
  }

  lemma NoRecords(data: seq<byte>, p: nat, end: nat)
    requires end <= |data|
    ensures Records(data, p, p, end, [])
  {
  }

  /** A walk that meets something else than a record is not in a directory. */
  lemma NotThere(data: seq<byte>, start: nat, p: nat, end: nat, done: seq<nat>)
    requires end <= |data| && p < end && Records(data, start, p, end, done) && !RecordAt(data, p, end)
    ensures forall rs :: !Directory(data, start, end, rs)
  {
    forall rs | Directory(data, start, end, rs)
      ensures false
    {
      RecordsInside(data, start, p, end, done, rs);
    }
  }

  /** A signature shuts out every end record before it, and an end record is framed. */
  lemma EndFacts(data: seq<byte>, p: nat)
    ensures p + 22 <= |data| && SignatureAt(data, p, END_SIGNATURE) ==> forall e :: EndAt(data, e) ==> e.offset >= p
    ensures EndsFile(data, p) ==> p + 22 <= |data| && SignatureAt(data, p, END_SIGNATURE)
    ensures Framed(data, p) ==> EndsFile(data, p) && p + 65535 + 22 >= |data|
    ensures forall e :: EndAt(data, e) && e.offset == p ==> Framed(data, p) && Ordinary(data, p) && LastSignature(data, p)
  {
  }

  lemma EndWindow(data: seq<byte>)
    ensures forall e :: EndAt(data, e) ==> e.offset + 22 <= |data| <= e.offset + 65535 + 22
  {
  }
}
