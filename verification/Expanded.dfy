/** Metered streams: entries of nested archives, capped external bodies and copies of in-memory
    resources all count on one counter of expanded bytes. */
module ExpandedBodies {
  import opened Utf8
  import opened Accounts
  import opened Cursors

  const SCRATCH: nat := 4096
  const DECOMPRESSOR: nat := 512 * 1024
  const PREFIX: nat := 4

  datatype Limits = Limits(metadata: nat, document: nat, resource: nat, archive: nat)

  datatype Role = Metadata | Document | ResourceRole | LinkedDocument | PrimaryDocument

  function Min(a: int, b: int): int {
    if a < b then a else b
  }

  function Max(a: int, b: int): int {
    if a < b then b else a
  }

  // The cap depends on what the first bytes say the entry is

  predicate Automatic(role: Role) {
    role == LinkedDocument || role == PrimaryDocument
  }

  function DocumentLimit(role: Role, l: Limits): nat {
    if role == PrimaryDocument then l.document else Min(l.document, l.resource)
  }

  function ArchiveLimit(l: Limits): nat {
    Min(l.archive, l.resource)
  }

  function RoleLimit(role: Role, l: Limits): nat {
    match role
    case Metadata => l.metadata
    case Document => l.document
    case ResourceRole => l.resource
    case _ => Max(DocumentLimit(role, l), ArchiveLimit(l))
  }

  predicate ZipPrefix(prefix: seq<byte>) {
    && |prefix| >= 4 && prefix[0] == 0x50 && prefix[1] == 0x4B
    && ((prefix[2] == 3 && prefix[3] == 4) || (prefix[2] == 5 && prefix[3] == 6))
  }

  function Representation(prefix: seq<byte>, document: nat, archive: nat): nat {
    if ZipPrefix(prefix) then archive else document
  }

  function FirstBytes(body: seq<byte>): seq<byte> {
    body[..Min(PREFIX, |body|)]
  }

  /** The cap on a body in a role. */
  function BodyLimit(role: Role, l: Limits, body: seq<byte>): nat {
    if Automatic(role) then Representation(FirstBytes(body), DocumentLimit(role, l), ArchiveLimit(l)) else RoleLimit(role, l)
  }

  /** Four bytes in front of anything. */
  predicate Begins(body: seq<byte>, first: seq<byte>) {
    |first| <= |body| && body[..|first|] == first
  }

  /** Which cap is whose: fixed roles have their own, and a document whose role is open is held to
      the caps of archives exactly if it begins like one. */
  lemma LimitMeans(role: Role, l: Limits, body: seq<byte>)
    ensures var archive := Begins(body, [0x50, 0x4B, 3, 4]) || Begins(body, [0x50, 0x4B, 5, 6]);
            BodyLimit(role, l, body) ==
            match role
            case Metadata => l.metadata
            case Document => l.document
            case ResourceRole => l.resource
            case PrimaryDocument => if archive then Least(l.archive, l.resource) else l.document
            case LinkedDocument => if archive then Least(l.archive, l.resource) else Least(l.document, l.resource)
  {
    var first := FirstBytes(body);
    if |body| >= 4 {
      assert body[..4] == [body[0], body[1], body[2], body[3]] && first == body[..4];
    }
  }

  function Least(a: nat, b: nat): (c: nat)
    ensures c <= a && c <= b && (c == a || c == b)
  {
    if a < b then a else b
  }

  // The shared counter

  class Run {
    const account: Account
    const total: nat         // MaxResourcesBytes
    var expanded: nat

    ghost predicate Valid()
      reads this, account
    {
      expanded <= total && (account.ample || account.usage.external <= account.limits.external)
    }

    function Left(): int
      reads this
    {
      total - expanded
    }

    /** What the external budget still admits. */
    function Quota(): int
      reads account
    {
      if account.ample then total + 1 else account.limits.external - account.usage.external
    }

    constructor (account: Account, total: nat)
      requires account.ample || account.usage.external <= account.limits.external
      ensures Valid() && expanded == 0 && this.account == account && this.total == total
    {
      this.account, this.total, expanded := account, total, 0;
    }

    /** Bytes count on the external budget first and then on the shared counter. */
    method Count(n: nat) returns (ok: bool)
      requires Valid() && n <= Left()
      modifies this`expanded, account
      ensures Valid()
      ensures ok ==> expanded == old(expanded) + n && account.usage == old(account.usage).Plus(External, n)
      ensures !ok ==> expanded == old(expanded) && account.usage == old(account.usage)
      ensures account.ample ==> ok
    {
      ok := account.Charge(External, n);
      if ok {
        expanded := expanded + n;
      }
    }
  }

  // An entry of an archive

  lemma DrainOrder(all: seq<byte>, delivered: seq<byte>, prefix: seq<byte>, at: nat, n: nat)
    requires at + n <= |prefix| && |delivered| + |prefix| - at <= |all|
    requires delivered == all[..|delivered|] && prefix[at..] == all[|delivered|..|delivered| + |prefix| - at]
    ensures var more := delivered + prefix[at..at + n];
            && |more| == |delivered| + n && more == all[..|more|]
            && prefix[at + n..] == all[|more|..|more| + |prefix| - (at + n)]
  {
    var rest := prefix[at..];
    assert prefix[at..at + n] == rest[..n] && prefix[at + n..] == rest[n..];
  }

  lemma ReadSlice(all: seq<byte>, from: nat, chunk: seq<byte>, rest: seq<byte>)
    requires from <= |all| && all[from..] == chunk + rest
    ensures from + |chunk| <= |all| && chunk == all[from..from + |chunk|] && rest == all[from + |chunk|..]
  {
    assert chunk == all[from..][..|chunk|] && rest == all[from..][|chunk|..];
  }

  lemma KeptMore(all: seq<byte>, kept: seq<byte>, seen: nat, chunk: seq<byte>)
    requires seen + |chunk| <= |all| && chunk == all[seen..seen + |chunk|] && kept == all[..Min(PREFIX, seen)]
    ensures kept + chunk[..Min(PREFIX - |kept|, |chunk|)] == all[..Min(PREFIX, seen + |chunk|)]
  {
    var n := Min(PREFIX - |kept|, |chunk|);
    if seen < PREFIX {
      assert chunk[..n] == all[seen..seen + n];
      PassOrder(all, seen, seen + n);
    } else {
      assert kept + chunk[..n] == kept;
    }
  }

  lemma PassOrder(all: seq<byte>, from: nat, to: nat)
    requires from <= to <= |all|
    ensures all[..from] + all[from..to] == all[..to]
  {
  }

  class ExpandedReader {
    const run: Run
    const body: ByteSource
    const automatic: bool
    const documentLimit: nat
    const archiveLimit: nat
    const declared: nat
    ghost const all: seq<byte>
    var limit: nat
    var seen: nat
    var classified: bool
    var prefix: seq<byte>
    var prefixAt: nat
    var prefixStatus: Status
    var kept: seq<byte>            // the first bytes, for later questions about the entry
    ghost var delivered: seq<byte>
    ghost var broken: bool         // bytes were read and withheld

    /** The body has given its first `seen` bytes. */
    ghost predicate InStep()
      reads this`seen, this`limit, this`kept, body
    {
      && seen + |body.rest| == |all| && body.rest == all[seen..] && seen <= limit
      && kept == all[..Min(PREFIX, seen)]
    }

    /** The bytes delivered, followed by those waiting in the prefix, begin the body. */
    ghost predicate InOrder()
      reads this
    {
      var got := |delivered| + |prefix| - prefixAt;
      && prefixAt <= |prefix| <= PREFIX && got <= |all|
      && delivered == all[..|delivered|] && prefix[prefixAt..] == all[|delivered|..got]
    }

    ghost predicate Valid()
      reads this, body
    {
      && InOrder() && seen <= |all|
      && (!broken ==> InStep() && |delivered| + |prefix| - prefixAt == seen)
      && (!classified && automatic ==> delivered == [] && prefix == [])
      && (!automatic ==> prefix == [] && !classified)
      && (classified && prefixStatus == More ==> |prefix| == PREFIX && !broken)
      && (!classified ==> prefixStatus == More)
      && (prefixStatus == Eof ==> body.rest == [] && !broken && |prefix| == |all|)
      && |prefix| <= |all| && prefix == all[..|prefix|]
      && (automatic && classified ==> limit == Representation(prefix, documentLimit, archiveLimit))
    }

    /** What the end of the body settles: its first bytes are known, and it fits the cap they choose. */
    ghost predicate Finished()
      reads this
    {
      && kept == FirstBytes(all)
      && (automatic ==> |all| <= Representation(FirstBytes(all), documentLimit, archiveLimit))
    }

    lemma AtEnd()
      requires Valid() && !broken && seen == |all| && (automatic ==> classified && prefixStatus != Fault)
      ensures Finished()
    {
    }

    /** No error has been returned yet. */
    ghost predicate Usable()
      reads this
    {
      broken ==> classified && prefixStatus == Fault
    }

    constructor (run: Run, body: ByteSource, limit: nat, automatic: bool, documentLimit: nat, archiveLimit: nat, declared: nat)
      ensures Valid() && !broken && !classified && delivered == [] && seen == 0 && prefix == [] && prefixStatus == More
      ensures this.run == run && this.body == body && this.limit == limit && this.automatic == automatic && all == body.rest
      ensures this.documentLimit == documentLimit && this.archiveLimit == archiveLimit && this.declared == declared
    {
      this.run, this.body, this.limit, this.automatic := run, body, limit, automatic;
      this.documentLimit, this.archiveLimit, this.declared := documentLimit, archiveLimit, declared;
      all, seen, classified, prefix, prefixAt, prefixStatus, kept := body.rest, 0, false, [], 0, More, [];
      delivered, broken := [], false;
    }

    /** One read of the body: counted before it is used, and refused if it does not fit. */
    method ReadData(most: nat) returns (chunk: seq<byte>, status: Status)
      requires run.Valid() && most > 0 && !broken
      requires InStep()
      modifies this`seen, this`kept, this`broken, body, run`expanded, run.account
      ensures run.Valid()
      ensures broken ==> status == Fault && chunk == []
      ensures !broken ==> InStep() && |chunk| <= most && seen == old(seen) + |chunk| && chunk == all[old(seen)..seen]
      ensures status == Eof ==> body.rest == [] && !broken
      ensures old(seen) <= seen <= |all| && run.expanded == old(run.expanded) + seen - old(seen)
      ensures run.account.usage == old(run.account.usage).Plus(External, seen - old(seen))
    {
      var admitted := run.account.Admit();
      if !admitted {
        return [], Fault;
      }
      var remaining := Min(Min(limit - seen, run.Left()), run.Quota());
      var want := Min(Min(most, SCRATCH), remaining);
      if want == 0 {
        want := 1;
      }
      chunk, status := body.Read(want);
      ReadSlice(all, seen, chunk, body.rest);
      if chunk != [] {
        if |chunk| > limit - seen || |chunk| > run.Left() {
          broken := true;
          return [], Fault;
        }
        var counted := run.Count(|chunk|);
        if !counted {
          broken := true;
          return [], Fault;
        }
        KeptMore(all, kept, seen, chunk);
        kept := kept + chunk[..Min(PREFIX - |kept|, |chunk|)];
        seen := seen + |chunk|;
        admitted := run.account.Admit();
        if !admitted {
          broken := true;
          return [], Fault;
        }
      }
    }

    /** Up to four bytes, or the reason why there are fewer. */
    method FillPrefix()
      requires run.Valid() && Valid() && !broken && automatic && !classified
      modifies this`seen, this`kept, this`broken, this`prefix, this`prefixStatus, body, run`expanded, run.account
      ensures run.Valid() && |prefix| <= PREFIX && |prefix| <= |all| && prefix == all[..|prefix|]
      ensures !broken ==> InStep() && |prefix| == seen
      ensures prefixStatus == More ==> |prefix| == PREFIX && !broken
      ensures prefixStatus == Eof ==> body.rest == [] && !broken
      ensures old(seen) <= seen <= |all| && run.expanded == old(run.expanded) + seen - old(seen)
      ensures run.account.usage == old(run.account.usage).Plus(External, seen - old(seen))
    {
      var empty := 0;
      while |prefix| < PREFIX
        invariant run.Valid() && |prefix| <= PREFIX && !broken && InStep() && |prefix| == seen && prefix == all[..seen]
        invariant prefixStatus == More && 0 <= empty < 100
        invariant run.expanded == old(run.expanded) + seen - old(seen)
        invariant run.account.usage == old(run.account.usage).Plus(External, seen - old(seen))
        decreases PREFIX - |prefix|, 100 - empty
      {
        var chunk, status := ReadData(PREFIX - |prefix|);
        prefix := prefix + chunk;
        if status != More {
          prefixStatus := status;
          break;
        }
        if chunk == [] {
          empty := empty + 1;
          if empty >= 100 {
            prefixStatus := Fault;
            break;
          }
        } else {
          empty := 0;
        }
      }
    }

    /** Chooses the cap from the prefix. */
    method Classify() returns (ok: bool)
      requires run.Valid() && Valid() && !broken && automatic && !classified
      modifies this`seen, this`kept, this`broken, this`prefix, this`prefixStatus, this`limit, this`classified, body, run`expanded, run.account
      ensures run.Valid() && classified
      ensures ok ==> Valid() && limit == Representation(prefix, documentLimit, archiveLimit) && declared <= limit && seen <= limit
      ensures ok && prefixStatus != Fault ==> prefix == FirstBytes(all)
      ensures !ok ==> broken
      ensures old(seen) <= seen <= |all| && run.expanded == old(run.expanded) + seen - old(seen)
      ensures run.account.usage == old(run.account.usage).Plus(External, seen - old(seen))
    {
      FillPrefix();
      limit := Representation(prefix, documentLimit, archiveLimit);
      classified := true;
      ok := seen <= limit && declared <= limit;
      if !ok {
        broken := true;
      }
    }

    /** Every byte of the body is delivered once and in order, whether it was looked at to choose
        the cap or not. */
    method Read(most: nat) returns (chunk: seq<byte>, status: Status)
      requires run.Valid() && Valid() && Usable()
      modifies this, body, run`expanded, run.account
      ensures run.Valid()
      ensures status != Fault ==> Valid() && Usable()
      ensures |chunk| <= most && delivered == old(delivered) + chunk && delivered <= all
      ensures status == Eof ==> delivered == all && !broken && seen == |all|
      ensures old(seen) <= seen <= |all| && run.expanded == old(run.expanded) + seen - old(seen)
      ensures run.account.usage == old(run.account.usage).Plus(External, seen - old(seen))
      ensures limit == old(limit) || (old(delivered) == [] && automatic)
      ensures status == Eof ==> Finished()
    {
      hide InOrder;
      hide InStep;
      if most == 0 {
        InOrderPrefix();
        var admitted := run.account.Admit();
        return [], if admitted then More else Fault;
      }
      if automatic && !classified {
        var ok := Classify();
        if !ok {
          return [], Fault;
        }
      }
      InOrderPrefix();
      if automatic && prefixAt < |prefix| {
        chunk, status := Drain(most);
        return;
      }
      if automatic && prefixStatus != More {
        Drained();
        return [], prefixStatus;
      }
      chunk, status := PassOn(most);
    }

    lemma EndSeen()
      requires Valid()
      ensures prefixStatus == Eof ==> seen == |all|
    {
    }

    lemma InOrderPrefix()
      requires Valid()
      ensures prefixAt <= |prefix| && delivered <= all
    {
    }

    lemma Drained()
      requires Valid() && prefixAt == |prefix|
      ensures delivered <= all && (prefixStatus == Eof && classified ==> delivered == all && seen == |all| && Finished())
    {
      if prefixStatus == Eof && classified {
        AtEnd();
      }
    }

    method PassOn(most: nat) returns (chunk: seq<byte>, status: Status)
      requires run.Valid() && Valid() && !broken && prefixAt == |prefix| && (automatic ==> classified) && prefixStatus == More && most > 0
      modifies this`seen, this`kept, this`broken, this`delivered, body, run`expanded, run.account
      ensures run.Valid() && (status != Fault ==> Valid() && !broken)
      ensures |chunk| <= most && delivered == old(delivered) + chunk && delivered <= all
      ensures status == Eof ==> delivered == all && !broken && seen == |all| && Finished()
      ensures old(seen) <= seen <= |all| && run.expanded == old(run.expanded) + seen - old(seen)
      ensures run.account.usage == old(run.account.usage).Plus(External, seen - old(seen))
    {
      hide Representation;
      chunk, status := ReadData(most);
      if !broken {
        PassOrder(all, old(seen), seen);
      }
      delivered := delivered + chunk;
      if status == Eof {
        AtEnd();
      }
    }

    method Drain(most: nat) returns (chunk: seq<byte>, status: Status)
      requires Valid() && automatic && classified && prefixAt < |prefix| && most > 0
      modifies this`prefixAt, this`delivered
      ensures status != Fault ==> Valid() && (broken ==> prefixStatus == Fault)
      ensures |chunk| <= most && delivered == old(delivered) + chunk && delivered <= all
      ensures status == Eof ==> delivered == all && !broken && seen == |all| && Finished()
    {
      hide Representation;
      hide InStep;
      EndSeen();
      var n := Min(most, |prefix| - prefixAt);
      DrainOrder(all, delivered, prefix, prefixAt, n);
      chunk := prefix[prefixAt..prefixAt + n];
      prefixAt := prefixAt + n;
      delivered := delivered + chunk;
      status := if prefixAt == |prefix| then prefixStatus else More;
      if status == Eof {
        AtEnd();
      }
    }
  }

  // An archive and what has been read from it

  /** Declared size, kind and, behind the decompressor, the bytes. */
  datatype Member = Member(declared: nat, directory: bool, body: seq<byte>)

  datatype Kept = Unread | Read(data: seq<byte>, failed: bool, prefix: seq<byte>)

  datatype Selection = Data(data: seq<byte>) | Partial(some: seq<byte>) | Refused

  class Archive {
    const run: Run
    const limits: Limits
    const members: seq<Member>
    const ready: bool
    var contents: seq<Kept>
    var retained: nat

    ghost predicate Valid()
      reads this
    {
      |contents| == |members| && forall i :: 0 <= i < |contents| ==> KeptOk(members[i], contents[i])
    }

    /** Live bytes on the account that belong to someone else. */
    ghost function Others(): int
      reads this, run.account
    {
      run.account.usage.buffered - retained
    }

    constructor (run: Run, limits: Limits, members: seq<Member>, ready: bool)
      ensures Valid() && this.run == run && this.limits == limits && this.members == members && this.ready == ready
      ensures contents == seq(|members|, i => Unread) && retained == 0
    {
      this.run, this.limits, this.members, this.ready := run, limits, members, ready;
      contents, retained := seq(|members|, i => Unread), 0;
    }

    method Reserve(n: nat) returns (ok: bool)
      requires Others() >= 0
      modifies this`retained, run.account
      ensures Others() == old(Others()) && retained == (if ok then old(retained) + n else old(retained))
      ensures run.account.usage.external == old(run.account.usage.external) && run.account.usage.input == old(run.account.usage.input)
    {
      ok := run.account.Charge(Buffered, n);
      if ok {
        retained := retained + n;
      }
    }

    method Release(n: nat)
      requires Others() >= 0 && n <= retained
      modifies this`retained, run.account
      ensures Others() == old(Others()) && retained == old(retained) - n
      ensures run.account.usage.external == old(run.account.usage.external) && run.account.usage.input == old(run.account.usage.input)
    {
      var _ := run.account.Release(n);
      retained := retained - n;
    }

    /** Capacity for `target` bytes under a cap; both buffers are held while one is copied. */
    method Enlarge(capacity: nat, target: nat, limit: nat) returns (ok: bool, capacity': nat)
      requires Others() >= 0 && capacity <= retained && target <= limit
      modifies this`retained, run.account
      ensures Others() == old(Others()) && capacity' <= retained && retained - capacity' == old(retained) - capacity
      ensures ok ==> target <= capacity'
      ensures !ok ==> capacity' == capacity
      ensures run.account.usage.external == old(run.account.usage.external) && run.account.usage.input == old(run.account.usage.input)
    {
      if target <= capacity {
        return true, capacity;
      }
      capacity' := if capacity <= limit / 2 then capacity * 2 else limit;
      capacity' := Min(Max(Max(capacity', SCRATCH), target), limit);
      ok := Reserve(capacity');
      if !ok {
        return false, capacity;
      }
      var copied := run.account.Admit();
      if !copied {
        Release(capacity');
        return false, capacity;
      }
      Release(capacity);
    }

    /** Reads a stream to its end under a cap that the stream may lower at its beginning. */
    method ReadBounded(reader: ExpandedReader, cap: nat) returns (data: seq<byte>, failed: bool)
      requires reader.run == run && run.Valid() && Others() >= 0
      requires reader.Valid() && !reader.broken && reader.delivered == [] && reader.seen == 0
      modifies this`retained, reader, reader.body, run`expanded, run.account
      ensures run.Valid() && Others() == old(Others()) && retained >= old(retained)
      ensures data <= reader.all && (!failed ==> data == reader.all && reader.seen == |data| && reader.Finished())
      ensures reader.seen <= |reader.all| && run.expanded == old(run.expanded) + reader.seen
      ensures run.account.usage.external == old(run.account.usage.external) + reader.seen
      ensures run.account.usage.input == old(run.account.usage.input)
    {
      data, failed := [], true;
      var reserved := Reserve(SCRATCH);
      if !reserved {
        return;
      }
      data, failed := Collect(reader, cap);
      Release(SCRATCH);
    }

    method Collect(reader: ExpandedReader, cap: nat) returns (data: seq<byte>, failed: bool)
      requires reader.run == run && run.Valid() && Others() >= 0
      requires reader.Valid() && !reader.broken && reader.delivered == [] && reader.seen == 0
      modifies this`retained, reader, reader.body, run`expanded, run.account
      ensures run.Valid() && Others() == old(Others()) && retained >= old(retained)
      ensures data <= reader.all && (!failed ==> data == reader.all && reader.seen == |data| && reader.Finished())
      ensures reader.seen <= |reader.all| && run.expanded == old(run.expanded) + reader.seen
      ensures run.account.usage.external == old(run.account.usage.external) + reader.seen
      ensures run.account.usage.input == old(run.account.usage.input)
    {
      hide ExpandedReader.InOrder;
      hide ExpandedReader.InStep;
      data, failed := [], true;
      var limit, empty, capacity := cap, 0, 0;
      while true
        invariant failed && run.Valid() && Others() == old(Others()) >= 0 && retained == old(retained) + capacity
        invariant reader.Valid() && reader.Usable() && reader.delivered == data <= reader.all && |data| <= limit && 0 <= empty < 100
        invariant reader.automatic && data != [] ==> reader.limit == 0 || limit <= reader.limit
        invariant run.expanded == old(run.expanded) + reader.seen
        invariant run.account.usage.external == old(run.account.usage.external) + reader.seen
        invariant run.account.usage.input == old(run.account.usage.input)
        decreases |reader.all| - |data|, 100 - empty
      {
        var admitted := run.account.Admit();
        if !admitted {
          return;
        }
        var remaining := Min(Min(limit - |data|, run.Left()), run.Quota());
        var chunk, status := reader.Read(Max(Min(SCRATCH, remaining), 1));
        if reader.automatic && 0 < reader.limit < limit {
          limit := reader.limit;
        }
        if chunk != [] {
          empty := 0;
          if |chunk| > limit - |data| {
            return;
          }
          var enlarged;
          enlarged, capacity := Enlarge(capacity, |data| + |chunk|, limit);
          if !enlarged {
            return;
          }
          data := data + chunk;
        } else if status == More {
          empty := empty + 1;
          if empty >= 100 {
            return;
          }
        }
        if status == Eof {
          var corrupt: bool := *;
          return data, corrupt;
        }
        if status == Fault {
          return;
        }
      }
    }

    /** The bytes of the archive itself, which are input and not expansion. */
    method ReadInput(source: ByteSource, limit: nat) returns (data: seq<byte>, failed: bool)
      requires Others() >= 0 && (run.account.ample || run.account.usage.input <= run.account.limits.input)
      modifies this`retained, source, run.account
      ensures Others() == old(Others()) && retained >= old(retained)
      ensures data <= old(source.rest) && |data| <= limit
      ensures !failed ==> data == old(source.rest) && run.account.usage.input == old(run.account.usage.input) + |data|
      ensures run.account.usage.external == old(run.account.usage.external)
      ensures run.account.ample || run.account.usage.input <= run.account.limits.input
      ensures |source.rest| <= |old(source.rest)|
      ensures old(run.account.usage.input) + |data| <= run.account.usage.input <= old(run.account.usage.input) + |old(source.rest)| - |source.rest|
    {
      data, failed := [], true;
      var reserved := Reserve(SCRATCH);
      if !reserved {
        return;
      }
      data, failed := CollectInput(source, limit);
      Release(SCRATCH);
    }

    method CollectInput(source: ByteSource, limit: nat) returns (data: seq<byte>, failed: bool)
      requires Others() >= 0 && (run.account.ample || run.account.usage.input <= run.account.limits.input)
      modifies this`retained, source, run.account
      ensures Others() == old(Others()) && retained >= old(retained)
      ensures data <= old(source.rest) && |data| <= limit
      ensures !failed ==> data == old(source.rest) && run.account.usage.input == old(run.account.usage.input) + |data|
      ensures run.account.usage.external == old(run.account.usage.external)
      ensures run.account.ample || run.account.usage.input <= run.account.limits.input
      ensures |source.rest| <= |old(source.rest)|
      ensures old(run.account.usage.input) + |data| <= run.account.usage.input <= old(run.account.usage.input) + |old(source.rest)| - |source.rest|
    {
      data, failed := [], true;
      var empty, capacity := 0, 0;
      ghost var all := source.rest;
      while true
        invariant failed && Others() == old(Others()) >= 0 && retained == old(retained) + capacity
        invariant all == data + source.rest && |data| <= limit && 0 <= empty < 100
        invariant run.account.usage.input == old(run.account.usage.input) + |data|
        invariant run.account.usage.external == old(run.account.usage.external)
        invariant run.account.ample || run.account.usage.input <= run.account.limits.input
        decreases |source.rest|, 100 - empty
      {
        var admitted := run.account.Admit();
        if !admitted {
          return;
        }
        var quota := if run.account.ample then SCRATCH else run.account.limits.input - run.account.usage.input;
        var chunk, status := source.Read(Max(Min(SCRATCH, Min(limit - |data|, quota)), 1));
        if chunk != [] {
          empty := 0;
          if |chunk| > limit - |data| {
            return;
          }
          var kept;
          kept, capacity := KeepInput(|data|, |chunk|, capacity, limit);
          if !kept {
            return;
          }
          data := data + chunk;
        } else if status == More {
          empty := empty + 1;
          if empty >= 100 {
            return;
          }
        }
        if status == Eof {
          return data, false;
        }
        if status == Fault {
          return;
        }
      }
    }

    /** Bytes just read are charged as input before there is room for them. */
    method KeepInput(held: nat, more: nat, capacity: nat, limit: nat) returns (ok: bool, capacity': nat)
      requires Others() >= 0 && capacity <= retained && held + more <= limit
      requires run.account.ample || run.account.usage.input <= run.account.limits.input
      modifies this`retained, run.account
      ensures Others() == old(Others()) && capacity' <= retained && retained - capacity' == old(retained) - capacity
      ensures run.account.usage.external == old(run.account.usage.external)
      ensures ok ==> run.account.usage.input == old(run.account.usage.input) + more
      ensures old(run.account.usage.input) <= run.account.usage.input <= old(run.account.usage.input) + more
      ensures run.account.ample || run.account.usage.input <= run.account.limits.input
    {
      capacity' := capacity;
      ok := run.account.Charge(Input, more);
      if ok {
        ok, capacity' := Enlarge(capacity, held + more, limit);
      }
    }

    /** A first attempt is remembered whatever becomes of it; asking again reads and counts nothing. */
    method ReadEntry(index: nat, role: Role) returns (out: Selection)
      requires run.Valid() && Valid() && Others() >= 0
      modifies this`contents, this`retained, run`expanded, run.account
      ensures run.Valid() && Valid() && Others() == old(Others())
      ensures run.expanded >= old(run.expanded)
      ensures run.account.usage.external - old(run.account.usage.external) == run.expanded - old(run.expanded)
      ensures index < |members| && old(contents)[index].Read? ==>
                contents == old(contents) && run.expanded == old(run.expanded) && run.account.usage == old(run.account.usage)
      ensures forall i :: 0 <= i < |contents| && i != index ==> contents[i] == old(contents)[i]
      ensures out.Data? ==> index < |members| && contents[index].Read? && out.data == contents[index].data == members[index].body
      ensures out.Data? ==> |out.data| == members[index].declared <= BodyLimit(role, limits, out.data)
      ensures index < |members| ==> run.expanded - old(run.expanded) <= |members[index].body|
      ensures run.expanded > old(run.expanded) ==> index < |members| && contents[index].Read?
      ensures index < |members| && old(contents)[index].Unread? && out.Data? ==> run.expanded == old(run.expanded) + |out.data|
    {
      if index >= |members| {
        return Refused;
      }
      var limit := RoleLimit(role, limits);
      var admitted := run.account.Admit();
      var member := members[index];
      if !admitted || !ready || member.directory || member.declared > limit {
        return Refused;
      }
      if contents[index].Read? {
        out := Again(index, role);
        return;
      }
      out := FirstRead(index, role, limit);
    }

    method Again(index: nat, role: Role) returns (out: Selection)
      requires Valid() && index < |members| && contents[index].Read? && members[index].declared <= RoleLimit(role, limits)
      ensures out.Data? ==> out.data == contents[index].data == members[index].body
      ensures out.Data? ==> |out.data| == members[index].declared <= BodyLimit(role, limits, out.data)
    {
      var kept := contents[index];
      var cap := RoleLimit(role, limits);
      if Automatic(role) {
        cap := Representation(kept.prefix, DocumentLimit(role, limits), ArchiveLimit(limits));
        if members[index].declared > cap || |kept.data| > cap {
          return Partial(kept.data);
        }
      }
      return if kept.failed then Partial(kept.data) else Data(kept.data);
    }

    method FirstRead(index: nat, role: Role, limit: nat) returns (out: Selection)
      requires run.Valid() && Valid() && Others() >= 0 && index < |members| && contents[index].Unread?
      requires limit == RoleLimit(role, limits) && members[index].declared <= limit
      modifies this`contents, this`retained, run`expanded, run.account
      ensures run.Valid() && Valid() && Others() == old(Others())
      ensures old(run.expanded) <= run.expanded <= old(run.expanded) + |members[index].body|
      ensures run.account.usage.external - old(run.account.usage.external) == run.expanded - old(run.expanded)
      ensures contents == old(contents)[index := contents[index]] && contents[index].Read?
      ensures out.Data? ==> out.data == contents[index].data == members[index].body
      ensures out.Data? ==> |out.data| == members[index].declared <= BodyLimit(role, limits, out.data)
      ensures out.Data? ==> run.expanded == old(run.expanded) + |out.data|
    {
      hide ExpandedReader.InOrder;
      hide ExpandedReader.InStep;
      hide Representation;
      var member := members[index];
      contents := contents[index := Read([], true, [])];
      if member.declared > run.Left() || member.declared > run.Quota() {
        return Refused;
      }
      var reserved := Reserve(DECOMPRESSOR);
      if !reserved {
        return Refused;
      }
      var body := new ByteSource(member.body, false);
      var reader := new ExpandedReader(run, body, limit, Automatic(role), DocumentLimit(role, limits), ArchiveLimit(limits), member.declared);
      var data, failed := ReadBounded(reader, limit);
      Release(DECOMPRESSOR);
      failed := failed || |data| != member.declared;
      if !failed {
        var sound: bool := *;
        failed := !sound;
      }
      contents := contents[index := Read(data, failed, reader.kept)];
      return if failed then Partial(data) else Data(data);
    }
  }

  predicate KeptOk(m: Member, k: Kept) {
    k.Read? && !k.failed ==> k.data == m.body && |m.body| == m.declared && k.prefix == FirstBytes(m.body)
  }

  // A body from outside

  class CappedBody {
    const run: Run
    const body: ByteSource
    const limit: nat
    var seen: nat
    ghost const all: seq<byte>
    ghost var broken: bool

    ghost predicate Valid()
      reads this, body
    {
      seen <= limit && seen <= |all| && (!broken ==> body.rest == all[seen..])
    }

    constructor (run: Run, body: ByteSource, limit: nat)
      ensures Valid() && !broken && this.run == run && this.body == body && this.limit == limit && seen == 0 && all == body.rest
    {
      this.run, this.body, this.limit, seen, all, broken := run, body, limit, 0, body.rest, false;
    }

    /** At most one byte beyond the caps is read, to tell an exact end; it is never passed on. */
    method Read(most: nat) returns (chunk: seq<byte>, status: Status)
      requires run.Valid() && Valid() && !broken
      modifies this`seen, this`broken, body, run`expanded, run.account
      ensures run.Valid() && Valid() && (broken ==> status == Fault)
      ensures |chunk| <= most && seen == old(seen) + |chunk| && chunk == all[old(seen)..seen]
      ensures run.expanded == old(run.expanded) + |chunk|
      ensures status == Eof ==> seen == |all|
      ensures !broken ==> run.account.usage == old(run.account.usage)
      ensures broken ==> seen == limit || run.expanded == run.total
      ensures |old(body.rest)| == |chunk| + |body.rest| + (if broken then 1 else 0) && (broken ==> |chunk| < most)
      ensures run.account.usage == if broken && |chunk| + 1 <= old(run.Quota()) then old(run.account.usage).Plus(External, 1) else old(run.account.usage)
      ensures body.reliable && most > 0 ==> (status == Fault ==> broken) && (chunk == [] ==> status == Eof || broken)
    {
      if most == 0 {
        return [], More;
      }
      var remaining: int := Min(limit - seen, run.Left());
      var want := if most > remaining then remaining + 1 else most;
      chunk, status := body.Read(want);
      assert chunk == all[seen..][..|chunk|] == all[seen..seen + |chunk|];
      assert body.rest == all[seen..][|chunk|..];
      if |chunk| > remaining {
        assert |chunk| == remaining + 1;
        if |chunk| <= run.Quota() {
          var _ := run.account.Charge(External, 1);
        }
        chunk, status, broken := chunk[..remaining], Fault, true;
      }
      seen := seen + |chunk|;
      run.expanded := run.expanded + |chunk|;
    }
  }

  // Resources that are in memory already

  class CurrentPackage {
    const run: Run
    const limits: Limits
    const current: map<string, seq<byte>>
    var copied: map<string, seq<byte>>
    var retained: nat

    ghost predicate Valid()
      reads this
    {
      forall p :: p in copied ==> p in current && copied[p] == current[p]
    }

    ghost function Others(): int
      reads this, run.account
    {
      run.account.usage.buffered - retained
    }

    constructor (run: Run, limits: Limits, current: map<string, seq<byte>>)
      ensures Valid() && this.run == run && this.limits == limits && this.current == current && copied == map[] && retained == 0
    {
      this.run, this.limits, this.current, copied, retained := run, limits, current, map[], 0;
    }

    /** The first selection of a member copies and counts it; later ones return the copy. */
    method EntryBytes(path: string, role: Role) returns (out: Selection)
      requires run.Valid() && Valid() && Others() >= 0
      modifies this`copied, this`retained, run`expanded, run.account
      ensures run.Valid() && Valid() && Others() == old(Others()) && !out.Partial?
      ensures path in old(copied) ==> copied == old(copied) && run.expanded == old(run.expanded) && run.account.usage == old(run.account.usage)
      ensures out.Data? ==> path in current && out.data == current[path] && |out.data| <= BodyLimit(role, limits, out.data)
      ensures out.Data? ==> copied == old(copied)[path := out.data]
      ensures out.Data? && path !in old(copied) ==> run.expanded == old(run.expanded) + |out.data|
      ensures out.Refused? ==> copied == old(copied)
      ensures run.expanded >= old(run.expanded)
      ensures run.account.usage.external - old(run.account.usage.external) == run.expanded - old(run.expanded)
    {
      var admitted := run.account.Admit();
      var cached := path in copied;
      if !admitted || (!cached && path !in current) {
        return Refused;
      }
      var data := if cached then copied[path] else current[path];
      if |data| > RoleLimit(role, limits) {
        return Refused;
      }
      var cap := BodyLimit(role, limits, data);
      if cached {
        return if Automatic(role) && |data| > cap then Refused else Data(data);
      }
      if |data| > run.Left() || |data| > run.Quota() {
        return Refused;
      }
      out := Copy(path, role, data, cap);
    }

    method Copy(path: string, role: Role, data: seq<byte>, cap: nat) returns (out: Selection)
      requires run.Valid() && Valid() && Others() >= 0 && path !in copied && path in current && data == current[path]
      requires cap == BodyLimit(role, limits, data) && |data| <= run.Left() && |data| <= RoleLimit(role, limits)
      modifies this`copied, this`retained, run`expanded, run.account
      ensures run.Valid() && Valid() && Others() == old(Others())
      ensures out == Refused || (out == Data(data) && |data| <= cap && copied == old(copied)[path := data] && run.expanded == old(run.expanded) + |data|)
      ensures out.Refused? ==> copied == old(copied)
      ensures run.expanded >= old(run.expanded)
      ensures run.account.usage.external - old(run.account.usage.external) == run.expanded - old(run.expanded)
    {
      var counted := 0;
      if Automatic(role) {
        counted := Min(PREFIX, |data|);
        var ok := run.Count(counted);
        var admitted := run.account.Admit();
        if !ok || !admitted || |data| > cap {
          return Refused;
        }
      }
      var ok := run.account.Charge(Buffered, |data| + 256);
      if !ok {
        return Refused;
      }
      retained := retained + |data| + 256;
      ok := run.Count(|data| - counted);
      if !ok {
        return Refused;
      }
      var copy := CopyBytes(data);
      if |copy| != |data| {
        return Refused;
      }
      copied := copied[path := copy];
      return Data(copy);
    }

    /** Block by block; cancellation leaves a shorter copy behind. */
    method CopyBytes(data: seq<byte>) returns (copy: seq<byte>)
      ensures copy <= data
    {
      copy := [];
      while |copy| < |data|
        invariant copy <= data
        decreases |data| - |copy|
      {
        var admitted := run.account.Admit();
        if !admitted {
          return;
        }
        var n := Min(SCRATCH, |data| - |copy|);
        assert data[..|copy| + n] == data[..|copy|] + data[|copy|..|copy| + n];
        copy := copy + data[|copy|..|copy| + n];
      }
    }
  }

  // Any interleaving

  datatype Operation =
    | Entry(archive: nat, index: nat, role: Role)
    | Outside(body: nat, most: nat)
    | Current(package: nat, path: string, packageRole: Role)

  function Sum(shares: seq<nat>): nat {
    if shares == [] then 0 else Sum(shares[..|shares| - 1]) + shares[|shares| - 1]
  }

  function Zeros(n: nat): (zeros: seq<nat>)
    ensures |zeros| == n && Sum(zeros) == 0 && forall i :: 0 <= i < n ==> zeros[i] == 0
  {
    if n == 0 then [] else Zeros(n - 1) + [0]
  }

  lemma {:induction false} SumUpdate(shares: seq<nat>, i: nat, share: nat)
    requires i < |shares|
    ensures Sum(shares[i := share]) == Sum(shares) - shares[i] + share
    ensures shares[i] <= Sum(shares)
  {
    var last := |shares| - 1;
    if i < last {
      SumUpdate(shares[..last], i, share);
      assert shares[i := share][..last] == shares[..last][i := share];
    } else {
      assert shares[i := share][..last] == shares[..last];
    }
  }

  // What each operation has counted

  /** One operation, the bytes it added to the counter and whether it returned the whole member. */
  datatype Tally = Tally(op: Operation, amount: nat, done: bool)

  function Total(ledger: seq<Tally>): nat {
    if ledger == [] then 0 else Total(ledger[..|ledger| - 1]) + ledger[|ledger| - 1].amount
  }

  /** What was counted for one outside body. */
  function BodyTotal(ledger: seq<Tally>, body: nat): nat {
    if ledger == [] then 0
    else
      var last := ledger[|ledger| - 1];
      BodyTotal(ledger[..|ledger| - 1], body) + if last.op.Outside? && last.op.body == body then last.amount else 0
  }

  function Operations(ledger: seq<Tally>): seq<Operation> {
    seq(|ledger|, i requires 0 <= i < |ledger| => ledger[i].op)
  }

  predicate SameEntry(a: Operation, b: Operation) {
    a.Entry? && b.Entry? && a.archive == b.archive && a.index == b.index
  }

  predicate SameMember(a: Operation, b: Operation) {
    a.Current? && b.Current? && a.package == b.package && a.path == b.path
  }

  /** Of all operations on an archive entry at most one has counted anything, and after the one
      that copied a package member no further one has. */
  ghost predicate CountedOnce(ledger: seq<Tally>) {
    && (forall i, j :: 0 <= i < j < |ledger| && SameEntry(ledger[i].op, ledger[j].op) ==>
          ledger[i].amount == 0 || ledger[j].amount == 0)
    && (forall i, j :: 0 <= i < j < |ledger| && SameMember(ledger[i].op, ledger[j].op) && ledger[i].done ==>
          ledger[j].amount == 0)
  }

  lemma CountedMore(ledger: seq<Tally>, record: Tally)
    requires CountedOnce(ledger)
    requires forall i :: 0 <= i < |ledger| && SameEntry(ledger[i].op, record.op) ==> ledger[i].amount == 0 || record.amount == 0
    requires forall i :: 0 <= i < |ledger| && SameMember(ledger[i].op, record.op) && ledger[i].done ==> record.amount == 0
    ensures CountedOnce(ledger + [record])
  {
  }

  lemma TotalMore(ledger: seq<Tally>, record: Tally)
    ensures Total(ledger + [record]) == Total(ledger) + record.amount
    ensures forall b :: BodyTotal(ledger + [record], b) ==
                        BodyTotal(ledger, b) + if record.op.Outside? && record.op.body == b then record.amount else 0
    ensures Operations(ledger + [record]) == Operations(ledger) + [record.op]
  {
    assert (ledger + [record])[..|ledger|] == ledger;
  }

  ghost function SeenOf(bodies: seq<CappedBody>): (seen: seq<nat>)
    reads bodies
    ensures |seen| == |bodies| && forall i :: 0 <= i < |bodies| ==> seen[i] == bodies[i].seen
  {
    if bodies == [] then []
    else
      var last := bodies[|bodies| - 1];
      assert last in bodies;
      SeenOf(bodies[..|bodies| - 1]) + [last.seen]
  }

  /** Everything that reads for one run.  The shares are the buffered bytes each one holds, the
      ledger what each operation has counted. */
  class Pool {
    const run: Run
    const archives: seq<Archive>
    const bodies: seq<CappedBody>
    const packages: seq<CurrentPackage>
    ghost const start: nat             // the counter when the pool was formed
    ghost const seenBefore: seq<nat>   // and how much of each body had been seen
    var spent: set<nat>                // bodies that have reported an error
    ghost var shares: seq<nat>
    ghost var packageShares: seq<nat>
    ghost var ledger: seq<Tally>

    ghost predicate Apart() {
      && (forall i, j :: 0 <= i < j < |archives| ==> archives[i] != archives[j])
      && (forall i, j :: 0 <= i < j < |bodies| ==> bodies[i] != bodies[j] && bodies[i].body != bodies[j].body)
      && (forall i, j :: 0 <= i < j < |packages| ==> packages[i] != packages[j])
    }

    ghost function Streams(): (streams: set<ByteSource>)
      ensures forall i :: 0 <= i < |bodies| ==> bodies[i].body in streams
    {
      set i | 0 <= i < |bodies| :: bodies[i].body
    }

    ghost predicate ArchivesValid()
      reads this`shares, archives
    {
      && |shares| == |archives|
      && forall i :: 0 <= i < |archives| ==> archives[i].run == run && archives[i].Valid() && archives[i].retained == shares[i]
    }

    ghost predicate PackagesValid()
      reads this`packageShares, packages
    {
      && |packageShares| == |packages|
      && forall i :: 0 <= i < |packages| ==> packages[i].run == run && packages[i].Valid() && packages[i].retained == packageShares[i]
    }

    ghost predicate BodiesValid()
      reads this`spent, bodies, Streams()
    {
      forall i :: 0 <= i < |bodies| ==> bodies[i].run == run && bodies[i].Valid() && (i !in spent ==> !bodies[i].broken)
    }

    /** The members are in order. */
    ghost predicate Steady()
      reads this`spent, this`shares, this`packageShares, run, run.account, archives, bodies, Streams(), packages
      ensures Steady() ==> run.expanded <= run.total
    {
      && run.Valid() && Apart() && ArchivesValid() && PackagesValid() && BodiesValid()
      && Sum(shares) + Sum(packageShares) <= run.account.usage.buffered
    }

    /** What has been counted for a body is what has been seen of it. */
    ghost predicate BodiesCounted()
      reads this`ledger, bodies
    {
      |seenBefore| == |bodies| && forall i :: 0 <= i < |bodies| ==> BodyCounted(i)
    }

    ghost predicate BodyCounted(i: nat)
      requires i < |bodies| && i < |seenBefore|
      reads this`ledger, bodies
    {
      bodies[i].seen == seenBefore[i] + BodyTotal(ledger, i)
    }

    /** An entry that has been attempted. */
    ghost predicate Attempted(archive: nat, index: nat)
      reads archives
    {
      archive < |archives| && index < |archives[archive].contents| && archives[archive].contents[index].Read?
    }

    ghost predicate Copied(package: nat, path: string)
      reads packages
    {
      package < |packages| && path in packages[package].copied
    }

    ghost function Size(archive: nat, index: nat): nat {
      if archive < |archives| && index < |archives[archive].members| then |archives[archive].members[index].body| else 0
    }

    /** Records that rule out further counting, and the sizes they are bounded by. */
    ghost predicate EntryRecorded(r: Tally)
      reads archives
    {
      r.op.Entry? && r.amount > 0 ==> Attempted(r.op.archive, r.op.index) && r.amount <= Size(r.op.archive, r.op.index)
    }

    ghost predicate MemberRecorded(r: Tally)
      reads packages
    {
      r.op.Current? && r.done ==> Copied(r.op.package, r.op.path)
    }

    ghost predicate Recorded()
      reads this`ledger, archives, packages
    {
      && CountedOnce(ledger)
      && (forall k :: 0 <= k < |ledger| ==> EntryRecorded(ledger[k]))
      && (forall k :: 0 <= k < |ledger| ==> MemberRecorded(ledger[k]))
    }

    ghost predicate Valid()
      reads this, run, run.account, archives, bodies, Streams(), packages
    {
      Steady() && BodiesCounted() && Recorded() && run.expanded == start + Total(ledger)
    }

    /** A pool that has not read anything is valid if its members are valid and apart. */
    constructor (run: Run, archives: seq<Archive>, bodies: seq<CappedBody>, packages: seq<CurrentPackage>)
      requires run.Valid()
      requires forall i, j :: 0 <= i < j < |archives| ==> archives[i] != archives[j]
      requires forall i, j :: 0 <= i < j < |bodies| ==> bodies[i] != bodies[j] && bodies[i].body != bodies[j].body
      requires forall i, j :: 0 <= i < j < |packages| ==> packages[i] != packages[j]
      requires forall i :: 0 <= i < |archives| ==> archives[i].run == run && archives[i].Valid() && archives[i].retained == 0
      requires forall i :: 0 <= i < |bodies| ==> bodies[i].run == run && bodies[i].Valid() && !bodies[i].broken
      requires forall i :: 0 <= i < |packages| ==> packages[i].run == run && packages[i].Valid() && packages[i].retained == 0
      ensures Valid() && this.run == run && this.archives == archives && this.bodies == bodies && this.packages == packages
      ensures start == run.expanded && ledger == []
    {
      hide Archive.Valid;
      hide CappedBody.Valid;
      hide CurrentPackage.Valid;
      hide Run.Valid;
      hide Sum;
      this.run, this.archives, this.bodies, this.packages := run, archives, bodies, packages;
      spent, ledger, start := {}, [], run.expanded;
      seenBefore := SeenOf(bodies);
      shares, packageShares := Zeros(|archives|), Zeros(|packages|);
    }

    /** Any operation on any member is recorded with what it has counted. */
    method Perform(op: Operation)
      requires Valid()
      modifies this`spent, this`shares, this`packageShares, this`ledger, run`expanded, run.account, archives, bodies, Streams(), packages
      ensures Valid() && old(run.expanded) <= run.expanded && Added(old(ledger), op)
    {
      hide Steady;
      hide Recorded;
      hide BodiesCounted;
      hide Total;
      match op
      case Entry(archive, index, role) => PerformEntry(archive, index, role);
      case Outside(body, most) => PerformOutside(body, most);
      case Current(package, path, role) => PerformCurrent(package, path, role);
    }

    ghost predicate Added(before: seq<Tally>, op: Operation)
      reads this`ledger
    {
      |ledger| == |before| + 1 && ledger[..|before|] == before && ledger[|before|].op == op
    }

    /** What has been attempted or copied stays so, and each body has been seen by `amount` more if
        it is the one given. */
    twostate predicate Onward(body: int, amount: nat)
      reads archives, bodies, packages
    {
      && (forall a, i :: old(Attempted(a, i)) ==> Attempted(a, i))
      && (forall q, p :: old(Copied(q, p)) ==> Copied(q, p))
      && (forall i :: 0 <= i < |bodies| ==> bodies[i].seen == old(bodies[i].seen) + if i == body then amount else 0)
    }

    /** The ledger is no part of what the members rely on. */
    ghost method Note(record: Tally)
      requires Steady()
      modifies this`ledger
      ensures Steady() && Onward(-1, 0) && ledger == old(ledger) + [record]
    {
      ledger := ledger + [record];
    }

    ghost predicate CountsWith(before: seq<Tally>, record: Tally, i: nat)
      requires i < |bodies| && i < |seenBefore|
      reads bodies
    {
      bodies[i].seen == seenBefore[i] + BodyTotal(before, i)
                        + if record.op.Outside? && record.op.body == i then record.amount else 0
    }

    /** Records stay true as members move on. */
    ghost method Enter(record: Tally, expanded: nat, before: seq<Tally>)
      requires Steady() && ledger == before && expanded == start + Total(before) && CountedOnce(before + [record])
      requires forall k :: 0 <= k < |before| ==> EntryRecorded(before[k]) && MemberRecorded(before[k])
      requires EntryRecorded(record) && MemberRecorded(record)
      requires |seenBefore| == |bodies| && run.expanded == expanded + record.amount
      requires forall i :: 0 <= i < |bodies| ==> CountsWith(before, record, i)
      modifies this`ledger
      ensures Valid() && ledger == before + [record]
    {
      hide Steady;
      hide Total;
      hide BodyTotal;
      hide CountedOnce;
      hide Attempted;
      hide Copied;
      TotalMore(before, record);
      Note(record);
      forall k | 0 <= k < |ledger|
        ensures EntryRecorded(ledger[k]) && MemberRecorded(ledger[k])
      {
        if k < |before| {
          assert ledger[k] == before[k];
          assert old(EntryRecorded(before[k])) && old(MemberRecorded(before[k]));
        } else {
          assert ledger[k] == record;
          assert old(EntryRecorded(record)) && old(MemberRecorded(record));
        }
      }
      forall i | 0 <= i < |bodies|
        ensures BodyCounted(i)
      {
        assert old(CountsWith(before, record, i));
      }
    }

    method PerformEntry(archive: nat, index: nat, role: Role)
      requires Valid()
      modifies this`shares, this`ledger, run`expanded, run.account, archives
      ensures Valid() && old(run.expanded) <= run.expanded && Added(old(ledger), Entry(archive, index, role))
    {
      hide Steady;
      hide Total;
      hide BodyTotal;
      hide CountedOnce;
      hide Attempted;
      hide Copied;
      ghost var op, before := Entry(archive, index, role), ledger;
      assert forall k :: 0 <= k < |before| ==> EntryRecorded(before[k]) && MemberRecorded(before[k]);
      assert forall i :: 0 <= i < |bodies| ==> BodyCounted(i);
      ghost var amount := ReadEntry(archive, index, role);
      ghost var record := Tally(op, amount, false);
      CountedMore(before, record);
      forall k | 0 <= k < |before|
        ensures EntryRecorded(before[k]) && MemberRecorded(before[k])
      {
        assert old(EntryRecorded(before[k])) && old(MemberRecorded(before[k]));
      }
      forall i | 0 <= i < |bodies|
        ensures CountsWith(before, record, i)
      {
        assert old(BodyCounted(i));
      }
      Enter(record, old(run.expanded), before);
    }

    /** Reading an entry counts only on the first attempt. */
    method ReadEntry(archive: nat, index: nat, role: Role) returns (ghost amount: nat)
      requires Steady()
      modifies this`shares, run`expanded, run.account, archives
      ensures Steady() && run.expanded == old(run.expanded) + amount && Onward(-1, 0)
      ensures amount > 0 ==> Attempted(archive, index) && !old(Attempted(archive, index)) && amount <= Size(archive, index)
    {
      hide Sum;
      hide PackagesValid;
      hide Copied;
      hide Apart;
      amount := 0;
      if archive < |archives| {
        SumUpdate(shares, archive, 0);
        var _ := archives[archive].ReadEntry(index, role);
        SumUpdate(shares, archive, archives[archive].retained);
        shares := shares[archive := archives[archive].retained];
        amount := run.expanded - old(run.expanded);
        forall i | 0 <= i < |archives|
          ensures archives[i].run == run && archives[i].Valid() && archives[i].retained == shares[i]
        {
          OtherArchive(i, archive);
        }
      }
    }

    method PerformOutside(body: nat, most: nat)
      requires Valid()
      modifies this`spent, this`ledger, run`expanded, run.account, bodies, Streams()
      ensures Valid() && old(run.expanded) <= run.expanded && Added(old(ledger), Outside(body, most))
    {
      hide Steady;
      hide Total;
      hide BodyTotal;
      hide CountedOnce;
      hide Attempted;
      hide Copied;
      ghost var before := ledger;
      assert forall k :: 0 <= k < |before| ==> EntryRecorded(before[k]) && MemberRecorded(before[k]);
      assert forall i :: 0 <= i < |bodies| ==> BodyCounted(i);
      ghost var amount := ReadBody(body, most);
      ghost var record := Tally(Outside(body, most), amount, false);
      CountedMore(before, record);
      forall k | 0 <= k < |before|
        ensures EntryRecorded(before[k]) && MemberRecorded(before[k])
      {
        assert old(EntryRecorded(before[k])) && old(MemberRecorded(before[k]));
      }
      forall i | 0 <= i < |bodies|
        ensures CountsWith(before, record, i)
      {
        assert old(BodyCounted(i));
      }
      Enter(record, old(run.expanded), before);
    }

    method ReadBody(body: nat, most: nat) returns (ghost amount: nat)
      requires Steady()
      modifies this`spent, run`expanded, run.account, bodies, Streams()
      ensures Steady() && run.expanded == old(run.expanded) + amount && Onward(body, amount)
    {
      hide Attempted;
      hide Copied;
      hide ArchivesValid;
      hide PackagesValid;
      hide Sum;
      hide Apart;
      amount := 0;
      if body < |bodies| && body !in spent {
        var chunk, status := bodies[body].Read(most);
        amount := |chunk|;
        if status == Fault {
          spent := spent + {body};
        }
        forall i | 0 <= i < |bodies|
          ensures bodies[i].Valid() && (i !in spent ==> !bodies[i].broken)
          ensures bodies[i].seen == old(bodies[i].seen) + if i == body then amount else 0
        {
          OtherBody(i, body);
        }
      }
    }

    /** Different bodies share nothing. */
    lemma OtherArchive(i: nat, j: nat)
      requires Apart() && i < |archives| && j < |archives|
      ensures i != j ==> archives[i] != archives[j]
    {
    }

    lemma OtherPackage(i: nat, j: nat)
      requires Apart() && i < |packages| && j < |packages|
      ensures i != j ==> packages[i] != packages[j]
    {
    }

    lemma OtherBody(i: nat, j: nat)
      requires Apart() && i < |bodies| && j < |bodies|
      ensures i != j ==> bodies[i] != bodies[j] && bodies[i].body != bodies[j].body
    {
    }

    method PerformCurrent(package: nat, path: string, role: Role)
      requires Valid()
      modifies this`packageShares, this`ledger, run`expanded, run.account, packages
      ensures Valid() && old(run.expanded) <= run.expanded && Added(old(ledger), Current(package, path, role))
    {
      hide Steady;
      hide Total;
      hide BodyTotal;
      hide CountedOnce;
      hide Attempted;
      hide Copied;
      ghost var op, before := Current(package, path, role), ledger;
      assert forall k :: 0 <= k < |before| ==> EntryRecorded(before[k]) && MemberRecorded(before[k]);
      assert forall i :: 0 <= i < |bodies| ==> BodyCounted(i);
      ghost var amount, done := CopyMember(package, path, role);
      ghost var record := Tally(op, amount, done);
      CountedMore(before, record);
      forall k | 0 <= k < |before|
        ensures EntryRecorded(before[k]) && MemberRecorded(before[k])
      {
        assert old(EntryRecorded(before[k])) && old(MemberRecorded(before[k]));
      }
      forall i | 0 <= i < |bodies|
        ensures CountsWith(before, record, i)
      {
        assert old(BodyCounted(i));
      }
      Enter(record, old(run.expanded), before);
    }

    /** Copying counts nothing for a member that has been copied. */
    method CopyMember(package: nat, path: string, role: Role) returns (ghost amount: nat, ghost done: bool)
      requires Steady()
      modifies this`packageShares, run`expanded, run.account, packages
      ensures Steady() && run.expanded == old(run.expanded) + amount && Onward(-1, 0)
      ensures (amount > 0 ==> !old(Copied(package, path))) && (done ==> Copied(package, path))
    {
      hide ArchivesValid;
      hide Attempted;
      hide Sum;
      hide Apart;
      amount, done := 0, false;
      if package < |packages| {
        SumUpdate(packageShares, package, 0);
        var out := packages[package].EntryBytes(path, role);
        SumUpdate(packageShares, package, packages[package].retained);
        packageShares := packageShares[package := packages[package].retained];
        amount, done := run.expanded - old(run.expanded), out.Data?;
        forall i | 0 <= i < |packages|
          ensures packages[i].run == run && packages[i].Valid() && packages[i].retained == packageShares[i]
        {
          OtherPackage(i, package);
        }
      }
    }

    /** Over any interleaving of operations the counter is the sum of what each one has counted
        and stays within its limit; an archive entry is counted by at most one of them, never for
        more than its body; a body for what has been seen of it; a package member not again once
        it has been copied. */
    method Interleave(operations: seq<Operation>)
      requires Valid()
      modifies this`spent, this`shares, this`packageShares, this`ledger, run`expanded, run.account, archives, bodies, Streams(), packages
      ensures Valid() && old(run.expanded) <= run.expanded <= run.total
      ensures run.expanded == start + Total(ledger) && CountedOnce(ledger)
      ensures |ledger| == |old(ledger)| + |operations| && ledger[..|old(ledger)|] == old(ledger)
      ensures Operations(ledger[|old(ledger)|..]) == operations
    {
      hide CountedOnce;
      hide Total;
      hide Steady;
      hide BodiesCounted;
      ghost var done := |ledger|;
      for i := 0 to |operations|
        invariant Valid() && old(run.expanded) <= run.expanded
        invariant |ledger| == done + i && ledger[..done] == old(ledger)
        invariant Operations(ledger[done..]) == operations[..i]
      {
        ghost var before := ledger;
        Perform(operations[i]);
        assert ledger[done..] == before[done..] + [ledger[|before|]];
        assert ledger[..done] == before[..done];
      }
      assert operations[..|operations|] == operations;
    }
  }
}
