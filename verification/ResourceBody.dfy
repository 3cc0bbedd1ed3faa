/** Reading a resource body that has been handed over: the stream is closed once, bytes are
    charged as they come, and buffered bytes are held exactly as long as the body is. */
module ResourceBodies {
  import opened Utf8
  import opened Accounts
  import opened Cursors

  const BLOCK: nat := 4096
  const SCRATCH: nat := 4096 + 256
  const OWNER: nat := 256

  /** A stream with an owner. */
  class OwnedStream {
    const source: ByteSource
    var closes: nat

    constructor (source: ByteSource)
      ensures this.source == source && closes == 0
    {
      this.source, closes := source, 0;
    }

    method Close() returns (ok: bool)
      modifies this`closes
      ensures closes == old(closes) + 1 && (source.reliable ==> ok)
    {
      closes := closes + 1;
      ok := *;
      ok := ok || source.reliable;
    }
  }

  function ChunkEnd(at: nat, length: nat): (end: nat)
    requires at < length
    ensures at < end <= length && end - at <= BLOCK && (end == length || end == at + BLOCK)
  {
    at + if length - at < BLOCK then length - at else BLOCK
  }

  class ResourceBody {
    const account: Account
    var bytes: seq<byte>
    var capacity: nat
    var retained: nat

    /** Everything held is on the account. */
    ghost predicate Valid()
      reads this, account
    {
      |bytes| <= capacity && retained == OWNER + capacity && retained <= account.usage.buffered
    }

    constructor (account: Account)
      requires account.usage.buffered >= OWNER
      ensures Valid() && bytes == [] && capacity == 0 && this.account == account
    {
      this.account, bytes, capacity, retained := account, [], 0, OWNER;
    }

    /** Gives back what is held. */
    method Close()
      requires Valid()
      modifies this, account
      ensures bytes == [] && retained == 0
      ensures account.usage == old(account.usage).(buffered := old(account.usage).buffered - old(retained))
    {
      var _ := account.Release(retained);
      bytes, capacity, retained := [], 0, 0;
    }

    /** Moves the bytes to a larger buffer; while they are copied both buffers are charged. */
    method Relocate(need: nat) returns (ok: bool)
      requires Valid() && need > capacity
      modifies this, account
      ensures Valid() && bytes == old(bytes)
      ensures ok ==> need <= capacity <= if 2 * old(capacity) > need then 2 * old(capacity) else need
      ensures !ok ==> capacity == old(capacity)
      ensures account.usage == old(account.usage).(buffered := old(account.usage).buffered + capacity - old(capacity))
      ensures account.ample ==> ok
    {
      var larger := if capacity * 2 > need then capacity * 2 else need;
      ok := account.Charge(Buffered, larger);
      if !ok {
        return;
      }
      var next := CopyBlocks();
      if |next| < |bytes| {
        var _ := account.Release(larger);
        return false;
      }
      var _ := account.Release(capacity);
      bytes, retained, capacity := next, retained + larger - capacity, larger;
    }

    /** A copy made block by block; a cancelled one is shorter. */
    method CopyBlocks() returns (next: seq<byte>)
      ensures next <= bytes && (account.ample ==> next == bytes)
    {
      next := [];
      while |next| < |bytes|
        invariant next <= bytes
        decreases |bytes| - |next|
      {
        var admitted := account.Admit();
        if !admitted {
          return;
        }
        var end := ChunkEnd(|next|, |bytes|);
        assert bytes[..end] == bytes[..|next|] + bytes[|next|..end];
        next := next + bytes[|next|..end];
      }
    }

    method Append(chunk: seq<byte>) returns (ok: bool)
      requires Valid()
      modifies this, account
      ensures Valid() && bytes == (if ok then old(bytes) + chunk else old(bytes))
      ensures account.usage == old(account.usage).(buffered := old(account.usage).buffered + capacity - old(capacity))
      ensures account.ample ==> ok
    {
      ok := true;
      if |bytes| + |chunk| > capacity {
        ok := Relocate(|bytes| + |chunk|);
      }
      if ok {
        bytes := bytes + chunk;
      }
    }

    /** One read of at most a block and at most one byte more than the quota. */
    method Step(source: ByteSource) returns (chunk: seq<byte>, status: Status, ok: bool)
      requires Valid() && (account.ample || account.usage.external <= account.limits.external)
      modifies this, account, source
      ensures Valid() && (account.ample || account.usage.external <= account.limits.external)
      ensures account.usage.buffered == old(account.usage.buffered) + capacity - old(capacity)
      ensures account.usage.input == old(account.usage.input)
      ensures ok ==> bytes == old(bytes) + chunk && account.usage.external == old(account.usage.external) + |chunk|
      ensures old(source.rest) == chunk + source.rest
      ensures Taken(old(source.rest), source.rest, account.usage.external - old(account.usage.external))
      ensures status == Eof ==> source.rest == []
      ensures source.reliable ==> status != Fault && (chunk == [] ==> status == Eof)
      ensures account.ample ==> ok
    {
      var remaining := if account.ample then BLOCK else account.limits.external - account.usage.external;
      chunk, status := source.Read(if remaining < BLOCK then remaining + 1 else BLOCK);
      ok := true;
      if chunk != [] {
        ok := account.Charge(External, if |chunk| < remaining then |chunk| else remaining);
        ok := ok && |chunk| <= remaining;
        if ok {
          ok := Append(chunk);
        }
      }
    }

    /** Reads the stream to its end.  Whatever happens, at most one byte is taken that is not
        charged, and it does not become part of the body. */
    method Fill(source: ByteSource) returns (ok: bool)
      requires Valid() && bytes == []
      requires account.ample || account.usage.external <= account.limits.external
      modifies this, account, source
      ensures Valid()
      ensures account.usage.buffered == old(account.usage.buffered) + capacity - old(capacity)
      ensures account.usage.input == old(account.usage.input)
      ensures ok ==> bytes == old(source.rest) && source.rest == []
      ensures ok ==> account.usage.external == old(account.usage.external) + |bytes|
      ensures account.ample || account.usage.external <= account.limits.external
      ensures Taken(old(source.rest), source.rest, account.usage.external - old(account.usage.external))
      ensures source.reliable && account.ample ==> ok
    {
      var empty := 0;
      ghost var all := source.rest;
      while true
        invariant Valid() && 0 <= empty < 100
        invariant account.usage == old(account.usage).(buffered := account.usage.buffered, external := old(account.usage.external) + |bytes|)
        invariant account.usage.buffered == old(account.usage.buffered) + capacity - old(capacity)
        invariant account.ample || account.usage.external <= account.limits.external
        invariant all == bytes + source.rest
        invariant source.reliable ==> empty == 0
        decreases |source.rest|, 100 - empty
      {
        var admitted := account.Admit();
        if !admitted {
          return false;
        }
        var chunk, status, more := Step(source);
        if !more {
          return false;
        }
        empty := if chunk == [] then empty + 1 else 0;
        admitted := account.Admit();
        if !admitted || status == Fault {
          return false;
        }
        if status == Eof {
          return true;
        }
        if empty >= 100 {
          return false;
        }
      }
    }
  }

  /** The bytes taken from a stream exceed those charged by at most one. */
  ghost predicate Taken(before: seq<byte>, after: seq<byte>, charged: int) {
    |after| <= |before| && charged <= |before| - |after| <= charged + 1
  }

  /** Takes over a stream.  It is closed exactly once on every path; on success the body is
      exactly the stream's bytes and only what it holds stays charged, on failure nothing does. */
  method ReadResourceBody(account: Account, stream: OwnedStream?) returns (out: ResourceBody?)
    requires account.ample || account.usage.external <= account.limits.external
    modifies account, if stream == null then {} else {stream, stream.source}
    ensures stream == null ==> out == null && account.usage == old(account.usage)
    ensures stream != null ==> stream.closes == old(stream.closes) + 1
    ensures out != null ==>
              && fresh(out) && out.account == account && out.Valid()
              && out.bytes == old(stream.source.rest)
              && account.usage.external == old(account.usage.external) + |out.bytes|
              && account.usage.buffered == old(account.usage.buffered) + OWNER + out.capacity
              && out.retained == OWNER + out.capacity
    ensures out == null ==> account.usage.buffered == old(account.usage.buffered)
    ensures account.usage.input == old(account.usage.input)
    ensures account.ample || account.usage.external <= account.limits.external
    ensures stream != null ==>
              Taken(old(stream.source.rest), stream.source.rest, account.usage.external - old(account.usage.external))
    ensures stream != null && stream.source.reliable && account.ample ==> out != null
  {
    if stream == null {
      return null;
    }
    var owned := ReadOwned(account, stream.source);
    var closed := stream.Close();
    if owned != null && !closed {
      owned.Close();
      return null;
    }
    return owned;
  }

  method ReadOwned(account: Account, source: ByteSource) returns (out: ResourceBody?)
    requires account.ample || account.usage.external <= account.limits.external
    modifies account, source
    ensures out != null ==>
              && fresh(out) && out.account == account && out.Valid()
              && out.bytes == old(source.rest)
              && account.usage.external == old(account.usage.external) + |out.bytes|
              && account.usage.buffered == old(account.usage.buffered) + OWNER + out.capacity
    ensures out == null ==> account.usage.buffered == old(account.usage.buffered)
    ensures account.usage.input == old(account.usage.input)
    ensures account.ample || account.usage.external <= account.limits.external
    ensures Taken(old(source.rest), source.rest, account.usage.external - old(account.usage.external))
    ensures source.reliable && account.ample ==> out != null
  {
    var admitted := account.Admit();
    if !admitted {
      return null;
    }
    var scratch := account.Charge(Buffered, SCRATCH);
    if !scratch {
      return null;
    }
    var held := account.Charge(Buffered, OWNER);
    if !held {
      var _ := account.Release(SCRATCH);
      return null;
    }
    var body := new ResourceBody(account);
    var ok := body.Fill(source);
    if !ok {
      body.Close();
    }
    var _ := account.Release(SCRATCH);
    return if ok then body else null;
  }
}
