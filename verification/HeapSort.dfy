/** The in-place heap sort of the ZIP observer: entry indices ordered by local offset. */
module HeapSort {
  import opened Accounts

  /** Every element indexes an entry. */
  ghost predicate Indices(s: seq<nat>, keys: seq<nat>) {
    forall i :: 0 <= i < |s| ==> s[i] < |keys|
  }

  /** Entry `a` does not start before entry `b`. */
  predicate AtLeast(keys: seq<nat>, a: nat, b: nat) {
    a < |keys| && b < |keys| && keys[a] >= keys[b]
  }

  ghost predicate Sorted(s: seq<nat>, keys: seq<nat>) {
    forall i, j :: 0 <= i <= j < |s| ==> AtLeast(keys, s[j], s[i])
  }

  function Up(c: nat): int {
    (c - 1) / 2
  }

  /** Position `c` is not above its parent. */
  ghost predicate Under(s: seq<nat>, keys: seq<nat>, c: nat)
    requires 0 < c < |s|
  {
    AtLeast(keys, s[Up(c)], s[c])
  }

  /** Positions from `lo` on are not below their children, as far as `end`. */
  ghost predicate Heap(s: seq<nat>, keys: seq<nat>, lo: nat, end: nat) {
    end <= |s| && forall c :: 2 * lo + 1 <= c < end ==> Under(s, keys, c)
  }

  /** A heap with a hole: only `root` may be below its children, which fit under its parent. */
  ghost predicate HeapButRoot(s: seq<nat>, keys: seq<nat>, lo: nat, end: nat, root: nat) {
    && end <= |s| && lo <= root
    && (forall c :: 2 * lo + 1 <= c < end && Up(c) != root ==> Under(s, keys, c))
    && (root > 0 && (root - 1) / 2 >= lo ==>
          forall c :: 2 * root + 1 <= c <= 2 * root + 2 && c < end ==> AtLeast(keys, s[(root - 1) / 2], s[c]))
  }

  /** The largest element of a heap is at its front. */
  lemma {:induction false} FrontIsLargest(s: seq<nat>, keys: seq<nat>, end: nat, i: nat)
    requires Heap(s, keys, 0, end) && Indices(s, keys) && i < end
    ensures AtLeast(keys, s[0], s[i])
  {
    if i > 0 {
      FrontIsLargest(s, keys, end, Up(i));
      assert Under(s, keys, i);
    }
  }

  function Swap(s: seq<nat>, i: nat, j: nat): (t: seq<nat>)
    requires i < |s| && j < |s|
    ensures |t| == |s| && t[i] == s[j] && t[j] == s[i]
    ensures forall k :: 0 <= k < |s| && k != i && k != j ==> t[k] == s[k]
  {
    s[i := s[j]][j := s[i]]
  }

  /** Two arrangements of the same elements that agree from `end` on. */
  ghost predicate Rearranged(s: seq<nat>, t: seq<nat>, end: nat) {
    |s| == |t| && end <= |s| && multiset(s[..end]) == multiset(t[..end]) && s[end..] == t[end..]
  }

  lemma SwapRearranges(s: seq<nat>, i: nat, j: nat, end: nat)
    requires i < end <= |s| && j < end
    ensures Rearranged(s, Swap(s, i, j), end)
  {
    var t := Swap(s, i, j);
    var p, q := s[..end], t[..end];
    assert q == p[i := p[j]][j := p[i]];
    assert multiset(q) == multiset(p);
  }

  lemma RearrangedWider(s: seq<nat>, t: seq<nat>, end: nat, wide: nat)
    requires Rearranged(s, t, end) && end <= wide <= |s|
    ensures Rearranged(s, t, wide)
  {
    assert s[..wide] == s[..end] + s[end..][..wide - end];
    assert t[..wide] == t[..end] + t[end..][..wide - end];
    assert s[wide..] == s[end..][wide - end..] && t[wide..] == t[end..][wide - end..];
  }

  lemma RearrangedIndices(s: seq<nat>, t: seq<nat>, keys: seq<nat>, end: nat)
    requires Rearranged(s, t, end) && Indices(s, keys)
    ensures Indices(t, keys)
  {
    forall i | 0 <= i < |t|
      ensures t[i] < |keys|
    {
      if i < end {
        assert t[i] == t[..end][i];
        assert t[i] in multiset(t[..end]) && t[i] in multiset(s[..end]);
      } else {
        assert t[i] == t[end..][i - end] == s[i];
      }
    }
  }

  /** Moving the hole down to the larger child keeps a heap with a hole. */
  lemma SiftStep(s: seq<nat>, keys: seq<nat>, lo: nat, end: nat, root: nat, child: nat)
    requires Indices(s, keys) && HeapButRoot(s, keys, lo, end, root) && root < end
    requires (child == 2 * root + 1 || child == 2 * root + 2) && child < end
    requires keys[s[root]] < keys[s[child]]
    requires forall c :: 2 * root + 1 <= c <= 2 * root + 2 && c < end ==> AtLeast(keys, s[child], s[c])
    ensures HeapButRoot(Swap(s, root, child), keys, lo, end, child)
  {
    var t := Swap(s, root, child);
    forall c | 2 * lo + 1 <= c < end && Up(c) != child
      ensures Under(t, keys, c)
    {
      if Up(c) == root {
        assert c == 2 * root + 1 || c == 2 * root + 2;
        assert AtLeast(keys, s[child], s[c]);
      } else {
        assert Under(s, keys, c);
        if c == root {
          assert AtLeast(keys, s[(root - 1) / 2], s[child]);
        }
      }
    }
    forall c | 2 * child + 1 <= c <= 2 * child + 2 && c < end
      ensures AtLeast(keys, t[(child - 1) / 2], t[c])
    {
      assert Up(c) == child;
      assert Under(s, keys, c);
    }
  }

  /** The hole is closed when the root is not below its children. */
  lemma SiftDone(s: seq<nat>, keys: seq<nat>, lo: nat, end: nat, root: nat)
    requires HeapButRoot(s, keys, lo, end, root)
    requires forall c :: 2 * root + 1 <= c <= 2 * root + 2 && c < end ==> AtLeast(keys, s[root], s[c])
    ensures Heap(s, keys, lo, end)
  {
    forall c | 2 * lo + 1 <= c < end
      ensures Under(s, keys, c)
    {
      if Up(c) == root {
        assert c == 2 * root + 1 || c == 2 * root + 2;
      }
    }
  }

  method Sift(a: array<nat>, keys: seq<nat>, lo: nat, end: nat, account: Account) returns (ok: bool)
    requires end <= a.Length && Indices(a[..], keys) && Heap(a[..], keys, lo + 1, end)
    modifies a
    ensures Rearranged(old(a[..]), a[..], end) && Indices(a[..], keys)
    ensures ok ==> Heap(a[..], keys, lo, end)
    ensures account.ample ==> ok
  {
    var root := lo;
    while root < end / 2
      invariant lo <= root
      invariant Rearranged(old(a[..]), a[..], end) && Indices(a[..], keys) && HeapButRoot(a[..], keys, lo, end, root)
      decreases end - root
    {
      var child := root * 2 + 1;
      ok := account.Admit();
      if !ok {
        return;
      }
      ghost var s := a[..];
      if child + 1 < end && keys[a[child]] < keys[a[child + 1]] {
        child := child + 1;
      }
      if keys[a[root]] >= keys[a[child]] {
        SiftDone(a[..], keys, lo, end, root);
        return true;
      }
      SiftStep(s, keys, lo, end, root, child);
      SwapRearranges(s, root, child, end);
      a[root], a[child] := a[child], a[root];
      assert a[..] == Swap(s, root, child);
      RearrangedIndices(s, a[..], keys, end);
      root := child;
    }
    SiftDone(a[..], keys, lo, end, root);
    ok := true;
  }

  /** The suffix is sorted and nothing before it belongs into it. */
  ghost predicate Settled(s: seq<nat>, keys: seq<nat>, end: nat) {
    && end <= |s| && Sorted(s[end..], keys)
    && forall i, j :: 0 <= i < end <= j < |s| ==> AtLeast(keys, s[j], s[i])
  }

  /** Rearranging the unsettled part keeps the rest settled. */
  lemma RearrangedSettled(s: seq<nat>, t: seq<nat>, keys: seq<nat>, end: nat)
    requires Rearranged(s, t, end) && Settled(s, keys, end)
    ensures Settled(t, keys, end)
  {
    forall i, j | 0 <= i < end <= j < |t|
      ensures AtLeast(keys, t[j], t[i])
    {
      assert t[i] == t[..end][i];
      assert t[i] in multiset(t[..end]) && t[i] in multiset(s[..end]);
      var k :| 0 <= k < end && s[..end][k] == t[i];
      assert s[k] == t[i] && t[j] == t[end..][j - end] == s[end..][j - end] == s[j];
    }
  }

  /** The front of a heap is the next element to settle. */
  lemma SettleFront(s: seq<nat>, keys: seq<nat>, end: nat)
    requires Indices(s, keys) && Heap(s, keys, 0, end + 1) && Settled(s, keys, end + 1)
    ensures Settled(Swap(s, 0, end), keys, end) && Heap(Swap(s, 0, end), keys, 1, end)
  {
    var t := Swap(s, 0, end);
    forall i | 0 <= i <= end
      ensures AtLeast(keys, s[0], s[i])
    {
      FrontIsLargest(s, keys, end + 1, i);
    }
    forall c | 3 <= c < end
      ensures Under(t, keys, c)
    {
      assert Under(s, keys, c);
    }
    forall i, j | 0 <= i <= j < |t[end..]|
      ensures AtLeast(keys, t[end..][j], t[end..][i])
    {
      if i > 0 {
        assert t[end..][i] == s[end + 1..][i - 1] && t[end..][j] == s[end + 1..][j - 1];
      }
    }
  }

  /** First the whole array is made a heap, from the last parent to the front. */
  method BuildHeap(a: array<nat>, keys: seq<nat>, account: Account) returns (ok: bool)
    requires Indices(a[..], keys)
    modifies a
    ensures Rearranged(old(a[..]), a[..], a.Length) && Indices(a[..], keys)
    ensures ok ==> Heap(a[..], keys, 0, a.Length)
    ensures account.ample ==> ok
  {
    hide Rearranged;
    var n := a.Length;
    var start := n / 2;
    RearrangedSame(a[..], n);
    ok := true;
    while start > 0
      invariant 0 <= start <= n / 2 && ok
      invariant Rearranged(old(a[..]), a[..], n) && Indices(a[..], keys) && Heap(a[..], keys, start, n)
    {
      start := start - 1;
      ghost var s := a[..];
      ok := Sift(a, keys, start, n, account);
      RearrangedTransitive(old(a[..]), s, a[..], n);
      if !ok {
        return;
      }
    }
  }

  lemma RearrangedSame(s: seq<nat>, end: nat)
    requires end <= |s|
    ensures Rearranged(s, s, end)
  {
  }

  lemma RearrangedTransitive(s: seq<nat>, t: seq<nat>, u: seq<nat>, end: nat)
    requires Rearranged(s, t, end) && Rearranged(t, u, end)
    ensures Rearranged(s, u, end)
  {
  }

  lemma RearrangedWhole(s: seq<nat>, t: seq<nat>)
    requires Rearranged(s, t, |s|)
    ensures |s| == |t| && multiset(s) == multiset(t)
  {
    assert s[..|s|] == s && t[..|t|] == t;
  }

  /** The largest element of the heap moves behind it. */
  method SettleOne(a: array<nat>, keys: seq<nat>, end: nat, account: Account) returns (ok: bool)
    requires end < a.Length && Indices(a[..], keys) && Heap(a[..], keys, 0, end + 1) && Settled(a[..], keys, end + 1)
    modifies a
    ensures Rearranged(old(a[..]), a[..], a.Length) && Indices(a[..], keys)
    ensures ok ==> Heap(a[..], keys, 0, end) && Settled(a[..], keys, end)
    ensures account.ample ==> ok
  {
    hide Rearranged;
    hide Heap;
    hide Settled;
    var n := a.Length;
    ghost var s := a[..];
    RearrangedSame(s, n);
    ok := account.Admit();
    if !ok {
      return;
    }
    SettleFront(s, keys, end);
    SwapRearranges(s, 0, end, n);
    a[0], a[end] := a[end], a[0];
    ghost var t := a[..];
    assert t == Swap(s, 0, end);
    RearrangedIndices(s, t, keys, n);
    ok := Sift(a, keys, 0, end, account);
    RearrangedSettled(t, a[..], keys, end);
    RearrangedWider(t, a[..], end, n);
    RearrangedTransitive(s, t, a[..], n);
  }

  /** The observer's order: a permutation of what was there, by local offset. */
  method SortPhysical(a: array<nat>, keys: seq<nat>, account: Account) returns (ok: bool)
    requires Indices(a[..], keys)
    modifies a
    ensures multiset(a[..]) == multiset(old(a[..]))
    ensures ok ==> Sorted(a[..], keys)
    ensures account.ample ==> ok
  {
    hide Rearranged;
    hide Heap;
    ghost var s := a[..];
    ok := BuildHeap(a, keys, account);
    RearrangedWhole(s, a[..]);
    if !ok || a.Length == 0 {
      return;
    }
    var end := a.Length - 1;
    while end > 0
      invariant 0 <= end < a.Length
      invariant Rearranged(s, a[..], a.Length) && Indices(a[..], keys)
      invariant Heap(a[..], keys, 0, end + 1) && Settled(a[..], keys, end + 1)
    {
      ghost var t := a[..];
      ok := SettleOne(a, keys, end, account);
      RearrangedTransitive(s, t, a[..], a.Length);
      if !ok {
        RearrangedWhole(s, a[..]);
        return;
      }
      end := end - 1;
    }
    RearrangedWhole(s, a[..]);
    AllSettled(a[..], keys);
    ok := true;
  }

  lemma AllSettled(s: seq<nat>, keys: seq<nat>)
    requires Indices(s, keys) && Settled(s, keys, 1)
    ensures Sorted(s, keys)
  {
    forall i, j | 0 <= i <= j < |s|
      ensures AtLeast(keys, s[j], s[i])
    {
      if i > 0 {
        assert s[i] == s[1..][i - 1] && s[j] == s[1..][j - 1];
      }
    }
  }
}
