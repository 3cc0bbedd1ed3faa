/** The meaning of a model walk: the fact sequence of a recursive traversal that does not
    follow a pointer already on the path from the root. */
module ModelWalk {

  type Pointer = nat
  type NodeId = nat

  /** A represented occurrence: embedded in its parent, or behind a pointer. */
  datatype Value = Inline(node: Node) | Ref(p: Pointer)

  /** What one position of a field holds: a value, an absent optional, or a choice with the
      variants that are set. */
  datatype Entry = Plain(value: Value) | Missing | Choice(selected: seq<Pointer>)

  /** A repeated field is a slice, any other field has one position. */
  datatype Field = Single(entry: Entry) | Repeated(entries: seq<Entry>)

  datatype Node = Node(name: string, fields: seq<Field>)

  /** The nodes behind pointers; a pointer without a node reads as an empty one. */
  type Heap = map<Pointer, Node>

  function Target(heap: Heap, value: Value): Node {
    match value
    case Inline(node) => node
    case Ref(p) => if p in heap then heap[p] else Node("", [])
  }

  function Entered(value: Value): set<Pointer> {
    if value.Ref? then {value.p} else {}
  }

  datatype Problem = ModelCycle | ChoiceCardinality

  datatype Event =
    | OpenNode(id: NodeId, parent: NodeId, name: string)
    | CompleteAttributes(id: NodeId)
    | Representation(id: NodeId, problems: seq<Problem>)
    | CloseNode(id: NodeId, childrenComplete: bool)

  /** One representative of a problem is enough. */
  function Report(problems: seq<Problem>, problem: Problem): seq<Problem> {
    if problem in problems then problems else problems + [problem]
  }

  // The positions of a node in order

  function FieldEntries(field: Field): seq<Entry> {
    match field
    case Single(entry) => [entry]
    case Repeated(entries) => entries
  }

  function Entries(fields: seq<Field>): seq<Entry> {
    if fields == [] then [] else FieldEntries(fields[0]) + Entries(fields[1..])
  }

  /** What an entry leads to, if anything. */
  datatype Step = Skip | Bad(problem: Problem) | Descend(value: Value)

  function Next(entry: Entry, active: set<Pointer>): Step {
    match entry
    case Missing => Skip
    case Choice(selected) =>
      if |selected| != 1 then Bad(ChoiceCardinality)
      else if selected[0] in active then Bad(ModelCycle) else Descend(Ref(selected[0]))
    case Plain(value) => if value.Ref? && value.p in active then Bad(ModelCycle) else Descend(value)
  }

  // Sizes for termination: embedded nodes are finite

  function ValueSize(value: Value): nat
    decreases value
  {
    match value
    case Inline(node) => 1 + FieldsSize(node.fields)
    case Ref(_) => 1
  }

  function FieldsSize(fields: seq<Field>): nat
    decreases fields
  {
    if fields == [] then 0 else FieldSize(fields[0]) + FieldsSize(fields[1..])
  }

  function FieldSize(field: Field): nat
    decreases field
  {
    match field
    case Single(entry) => EntrySize(entry)
    case Repeated(entries) => EntriesSize(entries)
  }

  function EntrySize(entry: Entry): (n: nat)
    ensures n > 0
    decreases entry
  {
    match entry
    case Plain(value) => 1 + ValueSize(value)
    case Missing => 1
    case Choice(_) => 2
  }

  function EntriesSize(entries: seq<Entry>): nat
    decreases entries
  {
    if entries == [] then 0 else EntrySize(entries[0]) + EntriesSize(entries[1..])
  }

  lemma {:induction false} EntriesSizeConcat(a: seq<Entry>, b: seq<Entry>)
    ensures EntriesSize(a + b) == EntriesSize(a) + EntriesSize(b)
  {
    if a == [] {
      assert a + b == b;
    } else {
      EntriesSizeConcat(a[1..], b);
      assert (a + b)[1..] == a[1..] + b;
    }
  }

  lemma {:induction false} EntriesSizeFields(fields: seq<Field>)
    ensures EntriesSize(Entries(fields)) == FieldsSize(fields)
  {
    if fields != [] {
      EntriesSizeFields(fields[1..]);
      EntriesSizeConcat(FieldEntries(fields[0]), Entries(fields[1..]));
      assert fields[0].Single? ==> FieldEntries(fields[0])[1..] == [];
    }
  }

  lemma EntryShrinks(entries: seq<Entry>, active: set<Pointer>)
    requires entries != []
    ensures EntriesSize(entries[1..]) < EntriesSize(entries)
    ensures var step := Next(entries[0], active); step.Descend? ==> ValueSize(step.value) < EntriesSize(entries)
  {
  }

  // The traversal

  datatype Trace = Trace(events: seq<Event>, next: NodeId)
  datatype Children = Children(events: seq<Event>, next: NodeId, problems: seq<Problem>)

  /** The facts of one occurrence; `next` is the last identity given out so far. */
  function Walk(heap: Heap, value: Value, parent: NodeId, active: set<Pointer>, next: NodeId): Trace
    requires value.Ref? ==> value.p !in active
    decreases |heap.Keys - active|, ValueSize(value), 0
  {
    var node := Target(heap, value);
    var id := next + 1;
    Deeper(heap, value, active);
    var kids := WalkAll(heap, Entries(node.fields), id, active + Entered(value), id, []);
    Trace([OpenNode(id, parent, node.name), CompleteAttributes(id)] + kids.events + Closing(id, kids.problems), kids.next)
  }

  function Closing(id: NodeId, problems: seq<Problem>): seq<Event> {
    [Representation(id, problems), CloseNode(id, problems == [])]
  }

  function WalkAll(heap: Heap, entries: seq<Entry>, id: NodeId, active: set<Pointer>, next: NodeId, problems: seq<Problem>)
    : Children
    decreases |heap.Keys - active|, EntriesSize(entries), 1
  {
    if entries == [] then Children([], next, problems)
    else
      EntryShrinks(entries, active);
      match Next(entries[0], active)
      case Skip => WalkAll(heap, entries[1..], id, active, next, problems)
      case Bad(problem) => WalkAll(heap, entries[1..], id, active, next, Report(problems, problem))
      case Descend(value) =>
        var first := Walk(heap, value, id, active, next);
        var rest := WalkAll(heap, entries[1..], id, active, first.next, problems);
        rest.(events := first.events + rest.events)
  }

  /** Entering a node brings the traversal closer to its end: a pointer leaves the set of
      those not yet on the path, and an embedded node is smaller than its value. */
  lemma Deeper(heap: Heap, value: Value, active: set<Pointer>)
    requires value.Ref? ==> value.p !in active
    ensures var left, left' := |heap.Keys - active|, |heap.Keys - (active + Entered(value))|;
            left' < left || (left' == left && EntriesSize(Entries(Target(heap, value).fields)) < ValueSize(value))
  {
    EntriesSizeFields(Target(heap, value).fields);
    if value.Ref? && value.p in heap {
      assert heap.Keys - active == (heap.Keys - (active + Entered(value))) + {value.p};
    } else {
      assert heap.Keys - active == heap.Keys - (active + Entered(value));
    }
  }

  /** The number of rounds the traversal takes. */
  function Work(heap: Heap, entries: seq<Entry>, active: set<Pointer>): nat
    decreases |heap.Keys - active|, EntriesSize(entries)
  {
    if entries == [] then 1
    else
      EntryShrinks(entries, active);
      Work(heap, entries[1..], active) +
      match Next(entries[0], active)
      case Descend(value) =>
        Deeper(heap, value, active);
        1 + Work(heap, Entries(Target(heap, value).fields), active + Entered(value))
      case _ => 1
  }

  // Properties of the trace

  /** Reading a fact sequence with a stack of open nodes: a node opens under the innermost
      open one and closes as the innermost; `None` if it does not. */
  datatype Replayed = None | Open(nodes: seq<NodeId>)

  function Parent(nodes: seq<NodeId>): NodeId {
    if nodes == [] then 0 else nodes[|nodes| - 1]
  }

  function ReplayOne(event: Event, nodes: seq<NodeId>): Replayed {
    match event
    case OpenNode(id, parent, _) => if parent == Parent(nodes) then Open(nodes + [id]) else None
    case CompleteAttributes(id) => if nodes != [] && id == Parent(nodes) then Open(nodes) else None
    case Representation(id, _) => if nodes != [] && id == Parent(nodes) then Open(nodes) else None
    case CloseNode(id, _) => if nodes != [] && id == Parent(nodes) then Open(nodes[..|nodes| - 1]) else None
  }

  function Replay(events: seq<Event>, nodes: seq<NodeId>): Replayed
    decreases |events|
  {
    if events == [] then Open(nodes)
    else
      match ReplayOne(events[0], nodes)
      case None => None
      case Open(nodes') => Replay(events[1..], nodes')
  }

  lemma {:induction false} ReplayConcat(a: seq<Event>, b: seq<Event>, nodes: seq<NodeId>)
    ensures Replay(a + b, nodes) ==
            match Replay(a, nodes) case None => None case Open(nodes') => Replay(b, nodes')
    decreases |a|
  {
    if a == [] {
      assert a + b == b;
    } else {
      assert (a + b)[0] == a[0] && (a + b)[1..] == a[1..] + b;
      var one := ReplayOne(a[0], nodes);
      if one.Open? {
        ReplayConcat(a[1..], b, one.nodes);
      }
    }
  }

  /** The identities of the nodes a sequence opens, in order. */
  function Opened(events: seq<Event>): seq<NodeId> {
    if events == [] then []
    else if events[0].OpenNode? then [events[0].id] + Opened(events[1..])
    else Opened(events[1..])
  }

  lemma {:induction false} OpenedConcat(a: seq<Event>, b: seq<Event>)
    ensures Opened(a + b) == Opened(a) + Opened(b)
  {
    if a == [] {
      assert a + b == b;
    } else {
      OpenedConcat(a[1..], b);
      assert (a + b)[0] == a[0] && (a + b)[1..] == a[1..] + b;
    }
  }

  function Range(from: NodeId, to: NodeId): seq<NodeId>
    requires from <= to
  {
    seq(to - from, i requires 0 <= i < to - from => from + 1 + i)
  }

  /** A node's facts are balanced, sit under its parent, and number their nodes in preorder
      from the last identity given out. */
  ghost predicate WellFormed(events: seq<Event>, nodes: seq<NodeId>, next: NodeId, next': NodeId) {
    next <= next' && Replay(events, nodes) == Open(nodes) && Opened(events) == Range(next, next')
  }

  lemma {:induction false} WellFormedConcat(a: seq<Event>, b: seq<Event>, nodes: seq<NodeId>, i: NodeId, j: NodeId, k: NodeId)
    requires WellFormed(a, nodes, i, j) && WellFormed(b, nodes, j, k)
    ensures WellFormed(a + b, nodes, i, k)
  {
    ReplayConcat(a, b, nodes);
    OpenedConcat(a, b);
    assert Range(i, j) + Range(j, k) == Range(i, k);
  }

  lemma {:induction false} WalkWellFormed(heap: Heap, value: Value, active: set<Pointer>, next: NodeId, nodes: seq<NodeId>)
    requires value.Ref? ==> value.p !in active
    ensures var t := Walk(heap, value, Parent(nodes), active, next);
            WellFormed(t.events, nodes, next, t.next)
    decreases |heap.Keys - active|, ValueSize(value), 0
  {
    var node, id := Target(heap, value), next + 1;
    Deeper(heap, value, active);
    var kids := WalkAll(heap, Entries(node.fields), id, active + Entered(value), id, []);
    WalkAllWellFormed(heap, Entries(node.fields), active + Entered(value), id, [], nodes + [id]);
    WrapWellFormed(kids.events, nodes, next, kids.next, node.name, kids.problems);
  }

  lemma ReplayTwo(a: Event, b: Event, nodes: seq<NodeId>)
    requires ReplayOne(a, nodes).Open?
    ensures Replay([a, b], nodes) == ReplayOne(b, ReplayOne(a, nodes).nodes)
  {
    assert [a, b][1..] == [b] && [b][1..] == [];
    var one := ReplayOne(a, nodes).nodes;
    assert Replay([b], one) == ReplayOne(b, one);
  }

  /** Opening and closing events around well-formed facts of a node. */
  lemma WrapWellFormed(inner: seq<Event>, nodes: seq<NodeId>, next: NodeId, next': NodeId, name: string, problems: seq<Problem>)
    requires WellFormed(inner, nodes + [next + 1], next + 1, next')
    ensures WellFormed([OpenNode(next + 1, Parent(nodes), name), CompleteAttributes(next + 1)] + inner + Closing(next + 1, problems),
                       nodes, next, next')
  {
    var id := next + 1;
    var opening := [OpenNode(id, Parent(nodes), name), CompleteAttributes(id)];
    var closing := Closing(id, problems);
    ReplayConcat(opening + inner, closing, nodes);
    ReplayConcat(opening, inner, nodes);
    OpenedConcat(opening + inner, closing);
    OpenedConcat(opening, inner);
    assert (nodes + [id])[..|nodes|] == nodes;
    ReplayTwo(opening[0], opening[1], nodes);
    ReplayTwo(closing[0], closing[1], nodes + [id]);
    assert opening[1..] == [opening[1]] && closing[1..] == [closing[1]];
    assert [opening[1]][1..] == [] && [closing[1]][1..] == [];
    assert Opened(opening) == [id] && Opened(closing) == [];
    assert [id] + Range(id, next') == Range(next, next');
  }

  lemma {:induction false} WalkAllWellFormed(heap: Heap, entries: seq<Entry>, active: set<Pointer>, next: NodeId,
                                             problems: seq<Problem>, nodes: seq<NodeId>)
    requires nodes != []
    ensures var kids := WalkAll(heap, entries, Parent(nodes), active, next, problems);
            WellFormed(kids.events, nodes, next, kids.next)
    decreases |heap.Keys - active|, EntriesSize(entries), 1
  {
    if entries == [] {
      assert Range(next, next) == [];
    } else {
      EntryShrinks(entries, active);
      match Next(entries[0], active)
      case Skip => WalkAllWellFormed(heap, entries[1..], active, next, problems, nodes);
      case Bad(problem) => WalkAllWellFormed(heap, entries[1..], active, next, Report(problems, problem), nodes);
      case Descend(value) =>
        var first := Walk(heap, value, Parent(nodes), active, next);
        WalkWellFormed(heap, value, active, next, nodes);
        WalkAllWellFormed(heap, entries[1..], active, first.next, problems, nodes);
        var rest := WalkAll(heap, entries[1..], Parent(nodes), active, first.next, problems);
        WellFormedConcat(first.events, rest.events, nodes, next, first.next, rest.next);
    }
  }
}
