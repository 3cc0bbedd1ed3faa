/** A body from outside a package: the caps of the package under the reading of the body. */
module PackageBodies {
  import opened Utf8
  import opened Accounts
  import opened Cursors
  import opened ExpandedBodies
  import opened ResourceBodies

  /** One read through the caps.  The byte that tells an exact end from an excess may be charged by
      the capped reader; what is passed on is charged by the owner of the body. */
  method StepCapped(owned: ResourceBody, capped: CappedBody) returns (chunk: seq<byte>, status: Status, ok: bool)
    requires owned.Valid() && capped.run.Valid() && capped.Valid() && !capped.broken && owned.account == capped.run.account
    modifies owned, owned.account, capped`seen, capped`broken, capped.body, capped.run`expanded
    ensures owned.Valid() && capped.run.Valid() && capped.Valid() && (ok && status != Fault ==> !capped.broken)
    ensures owned.account.usage.buffered == old(owned.account.usage.buffered) + owned.capacity - old(owned.capacity)
    ensures owned.account.usage.input == old(owned.account.usage.input)
    ensures capped.seen == old(capped.seen) + |chunk| && chunk == capped.all[old(capped.seen)..capped.seen]
    ensures capped.run.expanded == old(capped.run.expanded) + |chunk|
    ensures ok ==> owned.bytes == old(owned.bytes) + chunk
    ensures ok && status != Fault ==> owned.account.usage.external == old(owned.account.usage.external) + |chunk|
    ensures Taken(old(capped.body.rest), capped.body.rest, owned.account.usage.external - old(owned.account.usage.external))
    ensures status == Eof ==> capped.seen == |capped.all|
    ensures |old(capped.body.rest)| == |chunk| + |capped.body.rest| + if capped.broken then 1 else 0
    ensures capped.broken ==> capped.seen == capped.limit || capped.run.expanded == capped.run.total
    ensures capped.body.reliable && owned.account.ample ==>
              ok && (status == Fault ==> capped.broken) && (chunk == [] ==> status == Eof || status == Fault)
  {
    var account := owned.account;
    var remaining := if account.ample then BLOCK else account.limits.external - account.usage.external;
    chunk, status := capped.Read(if remaining < BLOCK then remaining + 1 else BLOCK);
    ok := true;
    if chunk != [] {
      ok := account.Charge(External, if |chunk| < remaining then |chunk| else remaining);
      ok := ok && |chunk| <= remaining;
      if ok {
        ok := owned.Append(chunk);
      }
    }
  }

  /** Nothing can stop the reading: the source and the account do not, and the body fits both caps. */
  ghost predicate Roomy(account: Account, capped: CappedBody, expanded: nat) {
    capped.body.reliable && account.ample && |capped.all| <= capped.limit && expanded + |capped.all| <= capped.run.total
  }

  /** Reads a body through the caps.  Whatever happens, at most one byte is taken that is not
      charged; on success every byte has been charged and counted once. */
  method FillCapped(owned: ResourceBody, capped: CappedBody) returns (ok: bool)
    requires owned.Valid() && owned.bytes == []
    requires capped.run.Valid() && capped.Valid() && !capped.broken && capped.seen == 0 && owned.account == capped.run.account
    modifies owned, owned.account, capped`seen, capped`broken, capped.body, capped.run`expanded
    ensures owned.Valid() && capped.run.Valid()
    ensures owned.account.usage.buffered == old(owned.account.usage.buffered) + owned.capacity - old(owned.capacity)
    ensures owned.account.usage.input == old(owned.account.usage.input)
    ensures capped.seen <= capped.limit && capped.run.expanded == old(capped.run.expanded) + capped.seen
    ensures ok ==> owned.bytes == capped.all && capped.seen == |capped.all|
                   && owned.account.usage.external == old(owned.account.usage.external) + |owned.bytes|
    ensures Taken(old(capped.body.rest), capped.body.rest, owned.account.usage.external - old(owned.account.usage.external))
    ensures Roomy(owned.account, capped, old(capped.run.expanded)) ==> ok
  {
    var empty := 0;
    ghost var start, counted := owned.account.usage.external, capped.run.expanded;
    ghost var room := Roomy(owned.account, capped, counted);
    while true
      invariant owned.Valid() && capped.run.Valid() && capped.Valid() && !capped.broken && 0 <= empty < 100
      invariant owned.bytes == capped.all[..capped.seen]
      invariant owned.account.usage.external == start + capped.seen && capped.run.expanded == counted + capped.seen
      invariant owned.account.usage.input == old(owned.account.usage.input)
      invariant owned.account.usage.buffered == old(owned.account.usage.buffered) + owned.capacity - old(owned.capacity)
      invariant |capped.body.rest| + capped.seen == |capped.all| == |old(capped.body.rest)|
      invariant room ==> empty == 0
      decreases |capped.body.rest|, 100 - empty
    {
      var admitted := owned.account.Admit();
      if !admitted {
        return false;
      }
      ghost var seen := capped.seen;
      var chunk, status, more := StepCapped(owned, capped);
      if !more {
        return false;
      }
      assert capped.all[..seen] + capped.all[seen..capped.seen] == capped.all[..capped.seen];
      empty := if chunk == [] then empty + 1 else 0;
      admitted := owned.account.Admit();
      if !admitted || status == Fault {
        return false;
      }
      if status == Eof {
        return true;
      }
      if empty >= 100 {
        return false;
      }
    }
  }

  /** Takes over a body for a package.  The stream is closed exactly once; on success the body is
      exactly the stream's bytes, within both caps, each charged and counted once; on failure
      nothing stays buffered, and of the bytes taken at most one has not been charged, the one
      that showed that there was more than the caps admit. */
  method ReadPackageBody(run: Run, stream: OwnedStream?, limit: nat) returns (out: ResourceBody?)
    requires run.Valid()
    modifies run`expanded, run.account, if stream == null then {} else {stream, stream.source}
    ensures run.Valid() && run.account.usage.input == old(run.account.usage.input)
    ensures stream == null ==> out == null && run.account.usage == old(run.account.usage) && run.expanded == old(run.expanded)
    ensures stream != null ==> stream.closes == old(stream.closes) + 1
    ensures out != null ==>
              && fresh(out) && out.account == run.account && out.Valid()
              && out.bytes == old(stream.source.rest) && |out.bytes| <= limit
              && run.account.usage.external == old(run.account.usage.external) + |out.bytes|
              && run.expanded == old(run.expanded) + |out.bytes|
              && run.account.usage.buffered == old(run.account.usage.buffered) + OWNER + out.capacity
    ensures out == null ==> run.account.usage.buffered == old(run.account.usage.buffered)
    ensures stream != null ==>
              && Taken(old(stream.source.rest), stream.source.rest, run.account.usage.external - old(run.account.usage.external))
              && old(run.expanded) <= run.expanded <= old(run.expanded) + limit
    ensures stream != null && stream.source.reliable && run.account.ample && |old(stream.source.rest)| <= limit
              && old(run.expanded) + |old(stream.source.rest)| <= run.total
            ==> out != null
  {
    if stream == null {
      return null;
    }
    var owned := ReadOwnedCapped(run, stream.source, limit);
    var closed := stream.Close();
    if owned != null && !closed {
      owned.Close();
      return null;
    }
    return owned;
  }

  method ReadOwnedCapped(run: Run, source: ByteSource, limit: nat) returns (out: ResourceBody?)
    requires run.Valid()
    modifies run`expanded, run.account, source
    ensures run.Valid() && run.account.usage.input == old(run.account.usage.input)
    ensures out != null ==>
              && fresh(out) && out.account == run.account && out.Valid()
              && out.bytes == old(source.rest) && |out.bytes| <= limit
              && run.account.usage.external == old(run.account.usage.external) + |out.bytes|
              && run.expanded == old(run.expanded) + |out.bytes|
              && run.account.usage.buffered == old(run.account.usage.buffered) + OWNER + out.capacity
    ensures out == null ==> run.account.usage.buffered == old(run.account.usage.buffered)
    ensures Taken(old(source.rest), source.rest, run.account.usage.external - old(run.account.usage.external))
    ensures old(run.expanded) <= run.expanded <= old(run.expanded) + limit
    ensures source.reliable && run.account.ample && |old(source.rest)| <= limit && old(run.expanded) + |old(source.rest)| <= run.total ==> out != null
  {
    var account := run.account;
    var admitted := account.Admit();
    if !admitted {
      return null;
    }
    var scratch := account.Charge(Buffered, ResourceBodies.SCRATCH);
    if !scratch {
      return null;
    }
    var held := account.Charge(Buffered, OWNER);
    if !held {
      var _ := account.Release(ResourceBodies.SCRATCH);
      return null;
    }
    var capped := new CappedBody(run, source, limit);
    var body := new ResourceBody(account);
    var ok := FillCapped(body, capped);
    if !ok {
      body.Close();
    }
    var _ := account.Release(ResourceBodies.SCRATCH);
    return if ok then body else null;
  }
}
