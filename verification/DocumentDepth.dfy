/** The nesting check of opus documents: an iterative depth-first search over a pointer
    graph that may be shared or cyclic. */
module DocumentDepth {

  const MAX_DEPTH: nat := 4096

  type Pointer = nat

  datatype Reference = Nil | To(target: Pointer)

  /** One content entry of an opus; a link or a score is a leaf element.  Nothing makes the
      three fields exclude each other. */
  datatype Content = Content(opus: Reference, hasLink: bool, hasScore: bool)

  datatype Document = Document(hasTitle: bool, content: seq<Content>)

  /** The documents a program holds; every inline child is one of them. */
  type Heap = map<Pointer, Document>

  ghost predicate Closed(heap: Heap) {
    forall p, i :: p in heap && 0 <= i < |heap[p].content| && heap[p].content[i].opus.To? ==> heap[p].content[i].opus.target in heap
  }

  predicate HasLeaf(d: Document) {
    d.hasTitle || exists i :: 0 <= i < |d.content| && (d.content[i].hasLink || d.content[i].hasScore)
  }

  function Inline(content: seq<Content>): (children: seq<Pointer>)
    ensures forall c :: c in children <==> exists i :: 0 <= i < |content| && content[i].opus == To(c)
  {
    if content == [] then []
    else if content[0].opus.To? then [content[0].opus.target] + Inline(content[1..])
    else Inline(content[1..])
  }

  function Children(heap: Heap, p: Pointer): (children: seq<Pointer>)
    requires p in heap
    ensures Closed(heap) ==> forall i :: 0 <= i < |children| ==> children[i] in heap
  {
    assert forall i :: 0 <= i < |Inline(heap[p].content)| ==> Inline(heap[p].content)[i] in Inline(heap[p].content);
    Inline(heap[p].content)
  }

  // What the limit means: chains of inline children

  ghost predicate Chain(heap: Heap, chain: seq<Pointer>) {
    && (forall i :: 0 <= i < |chain| ==> chain[i] in heap)
    && (forall i :: 0 <= i < |chain| - 1 ==> chain[i + 1] in Children(heap, chain[i]))
  }

  ghost predicate ChainFrom(heap: Heap, root: Pointer, chain: seq<Pointer>) {
    chain != [] && chain[0] == root && Chain(heap, chain)
  }

  ghost predicate WithinLimit(heap: Heap, chain: seq<Pointer>)
    requires chain != [] && Chain(heap, chain)
  {
    |chain| <= MAX_DEPTH && (|chain| == MAX_DEPTH ==> !HasLeaf(heap[chain[|chain| - 1]]))
  }

  ghost predicate Repeats(chain: seq<Pointer>) {
    exists i, j :: 0 <= i < j < |chain| && chain[i] == chain[j]
  }

  // The recursive form of the search

  datatype Verdict = Fine | TooDeep | Cycle

  predicate OverLimit(heap: Heap, p: Pointer, depth: nat)
    requires p in heap
  {
    depth > MAX_DEPTH || (depth == MAX_DEPTH && HasLeaf(heap[p]))
  }

  ghost function Visit(heap: Heap, p: Pointer, depth: nat, path: set<Pointer>): Verdict
    requires Closed(heap) && p in heap
    decreases MAX_DEPTH + 1 - depth, 1, 0
  {
    if OverLimit(heap, p, depth) then TooDeep
    else if p in path then Cycle
    else VisitAll(heap, Children(heap, p), depth + 1, path + {p})
  }

  ghost function VisitAll(heap: Heap, ps: seq<Pointer>, depth: nat, path: set<Pointer>): Verdict
    requires Closed(heap) && forall i :: 0 <= i < |ps| ==> ps[i] in heap
    decreases MAX_DEPTH + 1 - depth, 2, |ps|
  {
    if ps == [] then Fine
    else
      var v := Visit(heap, ps[0], depth, path);
      if v != Fine then v else VisitAll(heap, ps[1..], depth, path)
  }

  // The search visits every chain

  lemma {:induction false} FineChains(heap: Heap, root: Pointer, chain: seq<Pointer>, path: set<Pointer>, longer: seq<Pointer>)
    requires Closed(heap) && ChainFrom(heap, root, chain) && ChainFrom(heap, root, longer) && chain <= longer
    requires Visit(heap, chain[|chain| - 1], |chain|, path) == Fine
    ensures WithinLimit(heap, longer)
    decreases |longer| - |chain|
  {
    if |chain| < |longer| {
      var next := longer[..|chain| + 1];
      assert chain == longer[..|chain|];
      var p, c := chain[|chain| - 1], longer[|chain|];
      assert c in Children(heap, p);
      FineMember(heap, Children(heap, p), |chain| + 1, path + {p}, c);
      FineChains(heap, root, next, path + {p}, longer);
    } else {
      assert chain == longer;
    }
  }

  lemma {:induction false} FineMember(heap: Heap, ps: seq<Pointer>, depth: nat, path: set<Pointer>, c: Pointer)
    requires Closed(heap) && forall i :: 0 <= i < |ps| ==> ps[i] in heap
    requires c in ps && VisitAll(heap, ps, depth, path) == Fine
    ensures c in heap && Visit(heap, c, depth, path) == Fine
  {
    if ps[0] != c {
      FineMember(heap, ps[1..], depth, path, c);
    }
  }

  /** What a verdict other than Fine has found: a chain over the limit, or one that repeats. */
  ghost predicate Explains(heap: Heap, root: Pointer, v: Verdict, chain: seq<Pointer>) {
    ChainFrom(heap, root, chain) && if v == TooDeep then !WithinLimit(heap, chain) else Repeats(chain)
  }

  function PathOf(chain: seq<Pointer>): set<Pointer> {
    set i | 0 <= i < |chain| :: chain[i]
  }

  lemma PathGrows(chain: seq<Pointer>)
    requires chain != []
    ensures PathOf(chain) == PathOf(chain[..|chain| - 1]) + {chain[|chain| - 1]}
  {
    var n := |chain| - 1;
    assert forall i :: 0 <= i < n ==> chain[i] == chain[..n][i];
  }

  lemma {:induction false} VisitWitness(heap: Heap, root: Pointer, chain: seq<Pointer>, path: set<Pointer>)
    returns (found: seq<Pointer>)
    requires Closed(heap) && ChainFrom(heap, root, chain) && path == PathOf(chain[..|chain| - 1]) && |chain| <= MAX_DEPTH + 1
    requires Visit(heap, chain[|chain| - 1], |chain|, path) != Fine
    ensures Explains(heap, root, Visit(heap, chain[|chain| - 1], |chain|, path), found)
    decreases MAX_DEPTH + 1 - |chain|, 1, 0
  {
    var p := chain[|chain| - 1];
    if OverLimit(heap, p, |chain|) || p in path {
      found := chain;
    } else {
      PathGrows(chain);
      found := VisitAllWitness(heap, root, chain, Children(heap, p), path + {p});
    }
  }

  lemma {:induction false} VisitAllWitness(heap: Heap, root: Pointer, chain: seq<Pointer>, ps: seq<Pointer>, path: set<Pointer>)
    returns (found: seq<Pointer>)
    requires Closed(heap) && ChainFrom(heap, root, chain) && |chain| <= MAX_DEPTH
    requires forall i :: 0 <= i < |ps| ==> ps[i] in heap && ps[i] in Children(heap, chain[|chain| - 1])
    requires path == PathOf(chain)
    requires VisitAll(heap, ps, |chain| + 1, path) != Fine
    ensures Explains(heap, root, VisitAll(heap, ps, |chain| + 1, path), found)
    decreases MAX_DEPTH - |chain|, 2, |ps|
  {
    if Visit(heap, ps[0], |chain| + 1, path) != Fine {
      var next := chain + [ps[0]];
      assert next[..|chain|] == chain;
      found := VisitWitness(heap, root, next, path);
    } else {
      found := VisitAllWitness(heap, root, chain, ps[1..], path);
    }
  }

  /** A chain that repeats can be made as long as one likes by going round again. */
  lemma {:induction false} Pump(heap: Heap, root: Pointer, chain: seq<Pointer>, length: nat) returns (longer: seq<Pointer>)
    requires ChainFrom(heap, root, chain) && Repeats(chain)
    ensures ChainFrom(heap, root, longer) && |longer| >= length
    decreases length - |chain|
  {
    if |chain| >= length {
      return chain;
    }
    var i, j :| 0 <= i < j < |chain| && chain[i] == chain[j];
    var round := chain[..j] + chain[i..];
    forall k | 0 <= k < |round| - 1
      ensures round[k] in heap && round[k + 1] in Children(heap, round[k])
    {
      if k < j - 1 {
        assert round[k] == chain[k] && round[k + 1] == chain[k + 1];
      } else if k == j - 1 {
        assert round[k] == chain[k] && round[k + 1] == chain[i] == chain[j];
      } else {
        assert round[k] == chain[k - j + i] && round[k + 1] == chain[k - j + i + 1];
      }
    }
    assert round[j] == chain[i];
    var k := j - i;
    assert round[i] == round[j];
    longer := Pump(heap, root, round, length);
  }

  /** The search accepts exactly the graphs all of whose chains stay within the limit. */
  lemma NestingExact(heap: Heap, root: Pointer)
    requires Closed(heap) && root in heap
    ensures Visit(heap, root, 1, {}) == Fine <==>
            forall chain :: ChainFrom(heap, root, chain) ==> WithinLimit(heap, chain)
    ensures Visit(heap, root, 1, {}) == TooDeep ==> exists chain :: ChainFrom(heap, root, chain) && !WithinLimit(heap, chain)
    ensures Visit(heap, root, 1, {}) == Cycle ==> exists chain :: ChainFrom(heap, root, chain) && Repeats(chain)
  {
    var v := Visit(heap, root, 1, {});
    if v == Fine {
      forall chain | ChainFrom(heap, root, chain)
        ensures WithinLimit(heap, chain)
      {
        FineChains(heap, root, [root], {}, chain);
      }
    } else {
      var found := VisitWitness(heap, root, [root], {});
      if v == Cycle {
        var longer := Pump(heap, root, found, MAX_DEPTH + 1);
        assert !WithinLimit(heap, longer);
      }
    }
  }

  // The iterative form

  /** A record of the explicit stack: a document to enter, or one to leave. */
  datatype VisitRecord = Enter(p: Pointer, depth: nat) | Leave(p: Pointer)

  /** The documents whose Leave record is on the stack: the current path. */
  ghost function Leaving(stack: seq<VisitRecord>): set<Pointer> {
    set i | 0 <= i < |stack| && stack[i].Leave? :: stack[i].p
  }

  ghost predicate StackValid(heap: Heap, stack: seq<VisitRecord>) {
    && (forall i :: 0 <= i < |stack| ==> stack[i].p in heap)
    && (forall i, j :: 0 <= i < j < |stack| && stack[i].Leave? && stack[j].Leave? ==> stack[i].p != stack[j].p)
  }

  /** What the recursive search would say of everything that is still on the stack. */
  ghost function StackVerdict(heap: Heap, stack: seq<VisitRecord>): Verdict
    requires Closed(heap) && StackValid(heap, stack)
    decreases |stack|
  {
    if stack == [] then Fine
    else
      var top, below := stack[|stack| - 1], stack[..|stack| - 1];
      var v := if top.Leave? then Fine else Visit(heap, top.p, top.depth, Leaving(below));
      if v != Fine then v else StackVerdict(heap, below)
  }

  /** Steps needed for a document: the tree of chains below it is finite because of the limit. */
  ghost function Cost(heap: Heap, p: Pointer, depth: nat): (n: nat)
    requires Closed(heap) && p in heap
    ensures n > 0
    decreases MAX_DEPTH + 1 - depth, 1, 0
  {
    if depth > MAX_DEPTH then 1 else 2 + CostAll(heap, Children(heap, p), depth + 1)
  }

  ghost function CostAll(heap: Heap, ps: seq<Pointer>, depth: nat): nat
    requires Closed(heap) && forall i :: 0 <= i < |ps| ==> ps[i] in heap
    decreases MAX_DEPTH + 1 - depth, 2, |ps|
  {
    if ps == [] then 0 else Cost(heap, ps[0], depth) + CostAll(heap, ps[1..], depth)
  }

  ghost function StackCost(heap: Heap, stack: seq<VisitRecord>): nat
    requires Closed(heap) && forall i :: 0 <= i < |stack| ==> stack[i].p in heap
  {
    if stack == [] then 0
    else
      var top := stack[|stack| - 1];
      StackCost(heap, stack[..|stack| - 1]) + if top.Leave? then 1 else Cost(heap, top.p, top.depth)
  }

  /** The records of the children, the first one on top. */
  function Entries(ps: seq<Pointer>, depth: nat): (records: seq<VisitRecord>)
    ensures |records| == |ps|
    ensures forall i :: 0 <= i < |records| ==> records[i].Enter? && records[i].p in ps
  {
    if ps == [] then [] else Entries(ps[1..], depth) + [Enter(ps[0], depth)]
  }

  /** Children above a stack mean: search them in order, then go on below. */
  lemma {:induction false} EntriesVerdict(heap: Heap, stack: seq<VisitRecord>, ps: seq<Pointer>, depth: nat)
    requires Closed(heap) && StackValid(heap, stack) && forall i :: 0 <= i < |ps| ==> ps[i] in heap
    ensures StackValid(heap, stack + Entries(ps, depth)) && Leaving(stack + Entries(ps, depth)) == Leaving(stack)
    ensures var v := VisitAll(heap, ps, depth, Leaving(stack));
            StackVerdict(heap, stack + Entries(ps, depth)) == if v != Fine then v else StackVerdict(heap, stack)
    ensures StackCost(heap, stack + Entries(ps, depth)) == StackCost(heap, stack) + CostAll(heap, ps, depth)
  {
    var all := stack + Entries(ps, depth);
    if ps == [] {
      assert all == stack;
    } else {
      EntriesVerdict(heap, stack, ps[1..], depth);
      assert all[..|all| - 1] == stack + Entries(ps[1..], depth);
    }
    assert forall i :: 0 <= i < |all| && all[i].Leave? <==> 0 <= i < |stack| && all[i] == stack[i] && stack[i].Leave?;
  }

  lemma LeaveVerdict(heap: Heap, below: seq<VisitRecord>, p: Pointer)
    requires Closed(heap) && StackValid(heap, below) && p in heap && p !in Leaving(below)
    ensures var stack := below + [Leave(p)];
            && StackValid(heap, stack) && Leaving(stack) == Leaving(below) + {p}
            && StackVerdict(heap, stack) == StackVerdict(heap, below) && StackCost(heap, stack) == StackCost(heap, below) + 1
  {
    var stack := below + [Leave(p)];
    assert stack[..|below|] == below;
    assert forall i :: 0 <= i < |below| ==> stack[i] == below[i];
    assert stack[|below|].p in Leaving(stack);
    assert forall i :: 0 <= i < |below| && below[i].Leave? ==> stack[i].p in Leaving(stack) && below[i].p in Leaving(below);
  }

  lemma StartVerdict(heap: Heap, root: Pointer)
    requires Closed(heap) && root in heap
    ensures StackValid(heap, [Enter(root, 1)]) && Leaving([Enter(root, 1)]) == {}
    ensures StackVerdict(heap, [Enter(root, 1)]) == Visit(heap, root, 1, {})
  {
    assert [Enter(root, 1)][..0] == [] && Leaving([]) == {};
  }

  lemma PopLeave(heap: Heap, stack: seq<VisitRecord>)
    requires StackValid(heap, stack) && stack != []
    ensures var top, below := stack[|stack| - 1], stack[..|stack| - 1];
            StackValid(heap, below) && Leaving(below) == if top.Leave? then Leaving(stack) - {top.p} else Leaving(stack)
  {
    var below := stack[..|stack| - 1];
    assert forall i :: 0 <= i < |below| ==> stack[i] == below[i];
    assert forall i :: 0 <= i < |below| && below[i].Leave? ==> stack[i].p in Leaving(stack) && below[i].p in Leaving(below);
  }

  method OpusHasLeafChildren(document: Document) returns (leaf: bool)
    ensures leaf == HasLeaf(document)
  {
    if document.hasTitle {
      return true;
    }
    for i := 0 to |document.content|
      invariant forall j :: 0 <= j < i ==> !document.content[j].hasLink && !document.content[j].hasScore
    {
      if document.content[i].hasLink || document.content[i].hasScore {
        return true;
      }
    }
    leaf := false;
  }

  /** Children are pushed from the last to the first. */
  method PushChildren(stack: seq<VisitRecord>, content: seq<Content>, depth: nat) returns (pushed: seq<VisitRecord>)
    ensures pushed == stack + Entries(Inline(content), depth)
  {
    pushed := stack;
    var index := |content|;
    assert content[index..] == [];
    while index > 0
      invariant 0 <= index <= |content|
      invariant pushed == stack + Entries(Inline(content[index..]), depth)
    {
      index := index - 1;
      assert content[index..][1..] == content[index + 1..];
      if content[index].opus.To? {
        assert ([content[index].opus.target] + Inline(content[index + 1..]))[1..] == Inline(content[index + 1..]);
        pushed := pushed + [Enter(content[index].opus.target, depth)];
      }
    }
    assert content[0..] == content;
  }

  /** The explicit stack finds what the recursive search finds; `Nil` is a document that is
      not an opus or is missing. */
  method CheckDocumentNesting(heap: Heap, document: Reference) returns (verdict: Verdict)
    requires Closed(heap) && (document.To? ==> document.target in heap)
    ensures verdict == if document.Nil? then Fine else Visit(heap, document.target, 1, {})
  {
    hide Leaving;
    hide Inline;
    hide HasLeaf;
    hide Entries;
    if document.Nil? {
      return Fine;
    }
    var root := document.target;
    var active: set<Pointer> := {};
    var stack := [Enter(root, 1)];
    StartVerdict(heap, root);
    while stack != []
      invariant StackValid(heap, stack) && active == Leaving(stack)
      invariant StackVerdict(heap, stack) == Visit(heap, root, 1, {})
      decreases StackCost(heap, stack)
    {
      var visit := stack[|stack| - 1];
      PopLeave(heap, stack);
      stack := stack[..|stack| - 1];
      if visit.Leave? {
        active := active - {visit.p};
        continue;
      }
      var leaf := visit.depth == MAX_DEPTH;
      if leaf {
        leaf := OpusHasLeafChildren(heap[visit.p]);
      }
      if visit.depth > MAX_DEPTH || leaf {
        return TooDeep;
      }
      if visit.p in active {
        return Cycle;
      }
      active := active + {visit.p};
      ghost var below := stack;
      stack := stack + [Leave(visit.p)];
      LeaveVerdict(heap, below, visit.p);
      EntriesVerdict(heap, stack, Children(heap, visit.p), visit.depth + 1);
      stack := PushChildren(stack, heap[visit.p].content, visit.depth + 1);
    }
    verdict := Fine;
  }
}
