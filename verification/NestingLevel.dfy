/** What a passed nesting check is good for: a level that falls along inline children, so that
    recursion over them ends. */
module NestingLevels {
  import opened DocumentDepth

  /** No chain of inline children from a document has more than `bound` nodes. */
  ghost predicate Nests(heap: Heap, d: Pointer, bound: nat) {
    d in heap && forall chain :: ChainFrom(heap, d, chain) ==> |chain| <= bound
  }

  /** The length of the longest chain, as far as the fuel reaches. */
  ghost function Level(heap: Heap, d: Pointer, fuel: nat): (n: nat)
    ensures n <= fuel
    decreases fuel, 0, 0
  {
    if fuel == 0 || d !in heap then 0 else 1 + MaxLevel(heap, Children(heap, d), fuel - 1)
  }

  ghost function MaxLevel(heap: Heap, ds: seq<Pointer>, fuel: nat): (n: nat)
    ensures n <= fuel
    ensures forall d :: d in ds ==> Level(heap, d, fuel) <= n
    ensures ds != [] ==> exists d :: d in ds && Level(heap, d, fuel) == n
    ensures ds == [] ==> n == 0
    decreases fuel, 1, |ds|
  {
    if ds == [] then 0
    else
      var first, rest := Level(heap, ds[0], fuel), MaxLevel(heap, ds[1..], fuel);
      if first < rest then rest else first
  }

  /** There is a chain of that length. */
  lemma {:induction false} LevelChain(heap: Heap, d: Pointer, fuel: nat) returns (chain: seq<Pointer>)
    requires Closed(heap) && d in heap && fuel > 0
    ensures ChainFrom(heap, d, chain) && |chain| == Level(heap, d, fuel)
    decreases fuel
  {
    hide Level;
    hide Inline;
    hide MaxLevel;
    hide Chain;
    hide Closed;
    var children := Children(heap, d);
    chain := Alone(heap, d);
    LevelUnfold(heap, d, fuel);
    if children != [] && fuel > 1 {
      var most := MaxLevel(heap, children, fuel - 1);
      var c :| c in children && Level(heap, c, fuel - 1) == most;
      ChildHeld(heap, d, c);
      var rest := LevelChain(heap, c, fuel - 1);
      chain := Longer(heap, d, rest);
    }
  }

  lemma LevelUnfold(heap: Heap, d: Pointer, fuel: nat)
    requires d in heap && fuel > 0
    ensures Level(heap, d, fuel) == 1 + MaxLevel(heap, Children(heap, d), fuel - 1)
    ensures Children(heap, d) == [] || fuel == 1 ==> Level(heap, d, fuel) == 1
  {
  }

  lemma ChildHeld(heap: Heap, d: Pointer, c: Pointer)
    requires Closed(heap) && d in heap && c in Children(heap, d)
    ensures c in heap
  {
  }

  lemma Alone(heap: Heap, d: Pointer) returns (chain: seq<Pointer>)
    requires d in heap
    ensures chain == [d] && ChainFrom(heap, d, chain)
  {
    chain := [d];
  }

  lemma Longer(heap: Heap, d: Pointer, rest: seq<Pointer>) returns (chain: seq<Pointer>)
    requires d in heap && rest != [] && Chain(heap, rest) && rest[0] in Children(heap, d)
    ensures chain == [d] + rest && ChainFrom(heap, d, chain)
  {
    chain := [d] + rest;
    forall i | 0 <= i < |chain| - 1
      ensures chain[i + 1] in Children(heap, chain[i])
    {
      if i > 0 {
        assert chain[i] == rest[i - 1] && chain[i + 1] == rest[i - 1 + 1];
      }
    }
  }

  lemma LevelOutside(heap: Heap, d: Pointer, fuel: nat)
    requires d !in heap
    ensures Level(heap, d, fuel) == 0
  {
  }

  /** A level below its fuel would be the same with less. */
  lemma {:induction false} LevelStable(heap: Heap, d: Pointer, fuel: nat)
    requires fuel > 0 && Level(heap, d, fuel) < fuel
    ensures Level(heap, d, fuel - 1) == Level(heap, d, fuel)
    decreases fuel, 1
  {
    hide Level;
    hide MaxLevel;
    hide Children;
    if d !in heap {
      LevelOutside(heap, d, fuel);
      LevelOutside(heap, d, fuel - 1);
    } else {
      LevelUnfold(heap, d, fuel);
      if fuel > 1 {
        LevelUnfold(heap, d, fuel - 1);
        MaxStable(heap, Children(heap, d), fuel - 1);
      }
    }
  }

  lemma {:induction false} MaxStable(heap: Heap, ds: seq<Pointer>, fuel: nat)
    requires fuel > 0 && MaxLevel(heap, ds, fuel) < fuel
    ensures MaxLevel(heap, ds, fuel - 1) == MaxLevel(heap, ds, fuel)
    decreases fuel, 2, |ds|
  {
    if ds != [] {
      LevelStable(heap, ds[0], fuel);
      MaxStable(heap, ds[1..], fuel);
    }
  }

  /** Bounded nesting passes to inline children, and their level is lower. */
  lemma NestsChild(heap: Heap, d: Pointer, c: Pointer, bound: nat)
    requires Closed(heap) && Nests(heap, d, bound) && c in Children(heap, d)
    ensures Nests(heap, c, bound) && Level(heap, c, bound) < Level(heap, d, bound)
  {
    assert ChainFrom(heap, d, [d]);
    forall chain | ChainFrom(heap, c, chain)
      ensures |chain| < bound
    {
      var longer := Longer(heap, d, chain);
    }
    assert c in heap;
    var longest := LevelChain(heap, c, bound);
    LevelStable(heap, c, bound);
  }

  /** The check accepts only documents that nest within its limit. */
  lemma CheckedNests(heap: Heap, d: Pointer)
    requires Closed(heap) && d in heap && Visit(heap, d, 1, {}) == Fine
    ensures Nests(heap, d, MAX_DEPTH)
  {
    NestingExact(heap, d);
    forall chain | ChainFrom(heap, d, chain)
      ensures |chain| <= MAX_DEPTH
    {
      assert WithinLimit(heap, chain);
    }
  }
}
