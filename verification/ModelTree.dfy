/** What a model walk tells, without saying how it walks: the tree of occurrences below a root,
    the problems of each, and the facts in the order of the tree. */
module ModelTrees {
  import opened ModelWalk

  /** An occurrence with the occurrences below it and the problems found at its positions. */
  datatype Occurrence = Occurrence(value: Value, below: seq<Occurrence>, problems: seq<Problem>)

  /** A choice has exactly one variant set. */
  predicate BadChoice(entry: Entry) {
    entry.Choice? && |entry.selected| != 1
  }

  /** A position leads to a pointer that the path has come through. */
  predicate Returns(entry: Entry, path: set<Pointer>) {
    || (entry.Plain? && entry.value.Ref? && entry.value.p in path)
    || (entry.Choice? && |entry.selected| == 1 && entry.selected[0] in path)
  }

  /** What stands at a position that is present, sound and leads on. */
  function Leads(entry: Entry, path: set<Pointer>): seq<Value> {
    if BadChoice(entry) || Returns(entry, path) then []
    else
      match entry
      case Missing => []
      case Plain(value) => [value]
      case Choice(selected) => [Ref(selected[0])]
  }

  function Followed(entries: seq<Entry>, path: set<Pointer>): (values: seq<Value>) {
    if entries == [] then [] else Leads(entries[0], path) + Followed(entries[1..], path)
  }

  /** The entry at a position of a field. */
  predicate Stands(field: Field, i: nat, entry: Entry) {
    match field
    case Single(only) => i == 0 && entry == only
    case Repeated(entries) => i < |entries| && entry == entries[i]
  }

  function Positions(field: Field): nat {
    if field.Single? then 1 else |field.entries|
  }

  function Ahead(fields: seq<Field>, k: nat): nat
    requires k <= |fields|
  {
    if k == 0 then 0 else Positions(fields[0]) + Ahead(fields[1..], k - 1)
  }

  /** Each position of each field is visited, behind those ahead of it, and there are no others. */
  lemma {:induction false} EntriesInOrder(fields: seq<Field>, k: nat, i: nat)
    requires k < |fields| && i < Positions(fields[k])
    ensures Ahead(fields, k) + i < |Entries(fields)| == Ahead(fields, |fields|)
    ensures Stands(fields[k], i, Entries(fields)[Ahead(fields, k) + i])
    decreases |fields|
  {
    EntriesCount(fields);
    EntriesCount(fields[1..]);
    if k > 0 {
      EntriesInOrder(fields[1..], k - 1, i);
    }
  }

  lemma {:induction false} EntriesCount(fields: seq<Field>)
    ensures |Entries(fields)| == Ahead(fields, |fields|)
  {
    if fields != [] {
      EntriesCount(fields[1..]);
    }
  }

  function Values(occurrences: seq<Occurrence>): seq<Value> {
    seq(|occurrences|, i requires 0 <= i < |occurrences| => occurrences[i].value)
  }

  /** Each kind of problem once, and exactly the kinds that some position has. */
  ghost predicate Found(problems: seq<Problem>, entries: seq<Entry>, path: set<Pointer>) {
    && (forall i, j :: 0 <= i < j < |problems| ==> problems[i] != problems[j])
    && (ChoiceCardinality in problems <==> exists i :: 0 <= i < |entries| && BadChoice(entries[i]))
    && (ModelCycle in problems <==> exists i :: 0 <= i < |entries| && Returns(entries[i], path))
  }

  /** The tree below a value: its positions in order, those that lead on followed, the others
      accounted for. */
  ghost predicate Unfolds(heap: Heap, o: Occurrence, active: set<Pointer>) {
    var entries, path := Entries(Target(heap, o.value).fields), active + Entered(o.value);
    && (o.value.Ref? ==> o.value.p !in active)
    && Values(o.below) == Followed(entries, path) && Found(o.problems, entries, path)
    && forall i :: 0 <= i < |o.below| ==> Unfolds(heap, o.below[i], path)
  }

  /** The facts of a tree: an occurrence opens, its attributes are complete, those below it are
      told, and it closes with its problems, complete exactly if it has none. */
  function Facts(heap: Heap, o: Occurrence, parent: NodeId, next: NodeId): Trace {
    var id := next + 1;
    var below := AllFacts(heap, o.below, id, id);
    Trace([OpenNode(id, parent, Target(heap, o.value).name), CompleteAttributes(id)] + below.events
          + [Representation(id, o.problems), CloseNode(id, o.problems == [])], below.next)
  }

  function AllFacts(heap: Heap, os: seq<Occurrence>, parent: NodeId, next: NodeId): Trace {
    if os == [] then Trace([], next)
    else
      var first := Facts(heap, os[0], parent, next);
      var rest := AllFacts(heap, os[1..], parent, first.next);
      Trace(first.events + rest.events, rest.next)
  }

  /** Facts that are those of the tree below a root. */
  ghost predicate Told(heap: Heap, root: Value, events: seq<Event>) {
    exists o: Occurrence :: o.value == root && Unfolds(heap, o, {}) && events == Facts(heap, o, 0, 0).events
  }

  // The traversal tells the tree

  lemma LeadsOn(entry: Entry, path: set<Pointer>)
    ensures match Next(entry, path)
            case Skip => !BadChoice(entry) && !Returns(entry, path) && Leads(entry, path) == []
            case Bad(problem) =>
              && Leads(entry, path) == []
              && (problem == ChoiceCardinality <==> BadChoice(entry)) && (problem == ModelCycle <==> Returns(entry, path))
            case Descend(value) => !BadChoice(entry) && !Returns(entry, path) && Leads(entry, path) == [value]
    ensures !(BadChoice(entry) && Returns(entry, path))
  {
  }

  /** The problems of some positions, in the order in which each kind is first met. */
  function Problems(entries: seq<Entry>, path: set<Pointer>, problems: seq<Problem>): seq<Problem> {
    if entries == [] then problems
    else
      var more := match Next(entries[0], path)
                  case Bad(problem) => Report(problems, problem)
                  case _ => problems;
      Problems(entries[1..], path, more)
  }

  predicate Once(problems: seq<Problem>) {
    forall i, j :: 0 <= i < j < |problems| ==> problems[i] != problems[j]
  }

  lemma {:induction false} ProblemsFound(entries: seq<Entry>, path: set<Pointer>, problems: seq<Problem>)
    requires Once(problems)
    ensures var all := Problems(entries, path, problems);
            && Once(all)
            && (ChoiceCardinality in all <==> ChoiceCardinality in problems || exists i :: 0 <= i < |entries| && BadChoice(entries[i]))
            && (ModelCycle in all <==> ModelCycle in problems || exists i :: 0 <= i < |entries| && Returns(entries[i], path))
    decreases |entries|
  {
    if entries != [] {
      hide Next;
      hide BadChoice;
      hide Returns;
      LeadsOn(entries[0], path);
      var rest := entries[1..];
      var more := match Next(entries[0], path)
                  case Bad(problem) => Report(problems, problem)
                  case _ => problems;
      ProblemsFound(rest, path, more);
      assert forall i :: 0 < i < |entries| ==> entries[i] == rest[i - 1];
      SomeRest(entries, path);
    }
  }

  lemma SomeRest(entries: seq<Entry>, path: set<Pointer>)
    requires entries != []
    ensures var rest := entries[1..];
            && ((exists i :: 0 <= i < |entries| && BadChoice(entries[i])) <==>
                BadChoice(entries[0]) || exists i :: 0 <= i < |rest| && BadChoice(rest[i]))
            && ((exists i :: 0 <= i < |entries| && Returns(entries[i], path)) <==>
                Returns(entries[0], path) || exists i :: 0 <= i < |rest| && Returns(rest[i], path))
  {
    hide BadChoice;
    hide Returns;
    var rest := entries[1..];
    if i :| 0 <= i < |rest| && BadChoice(rest[i]) {
      assert BadChoice(entries[i + 1]);
    }
    if i :| 0 <= i < |entries| && BadChoice(entries[i]) {
      assert i > 0 ==> BadChoice(rest[i - 1]);
    }
    if i :| 0 <= i < |rest| && Returns(rest[i], path) {
      assert Returns(entries[i + 1], path);
    }
    if i :| 0 <= i < |entries| && Returns(entries[i], path) {
      assert i > 0 ==> Returns(rest[i - 1], path);
    }
  }

  /** The tree the traversal goes through. */
  function Unfold(heap: Heap, value: Value, active: set<Pointer>): (o: Occurrence)
    requires value.Ref? ==> value.p !in active
    ensures o.value == value
    decreases |heap.Keys - active|, ValueSize(value), 0
  {
    var entries, path := Entries(Target(heap, value).fields), active + Entered(value);
    Deeper(heap, value, active);
    Occurrence(value, UnfoldAll(heap, entries, path), Problems(entries, path, []))
  }

  function UnfoldAll(heap: Heap, entries: seq<Entry>, path: set<Pointer>): (os: seq<Occurrence>)
    decreases |heap.Keys - path|, EntriesSize(entries), 1
  {
    if entries == [] then []
    else
      EntryShrinks(entries, path);
      var rest := UnfoldAll(heap, entries[1..], path);
      match Next(entries[0], path)
      case Descend(value) => [Unfold(heap, value, path)] + rest
      case _ => rest
  }

  lemma {:induction false} UnfoldFollows(heap: Heap, entries: seq<Entry>, path: set<Pointer>)
    ensures Values(UnfoldAll(heap, entries, path)) == Followed(entries, path)
    decreases |entries|
  {
    hide Unfold;
    hide Next;
    hide Leads;
    if entries != [] {
      LeadsOn(entries[0], path);
      UnfoldFollows(heap, entries[1..], path);
      ValuesFirst(heap, entries, path);
    }
  }

  lemma ValuesFirst(heap: Heap, entries: seq<Entry>, path: set<Pointer>)
    requires entries != []
    ensures Values(UnfoldAll(heap, entries, path)) ==
            (match Next(entries[0], path)
             case Descend(value) => [value]
             case _ => []) + Values(UnfoldAll(heap, entries[1..], path))
  {
    hide Unfold;
    hide Values;
    hide EntriesSize;
    EntryShrinks(entries, path);
    var rest, next := UnfoldAll(heap, entries[1..], path), Next(entries[0], path);
    if next.Descend? {
      ValuesOne(Unfold(heap, next.value, path), rest);
    }
    assert [] + Values(rest) == Values(rest);
  }

  lemma ValuesOne(o: Occurrence, rest: seq<Occurrence>)
    ensures Values([o] + rest) == [o.value] + Values(rest)
  {
  }

  lemma {:induction false} UnfoldUnfolds(heap: Heap, value: Value, active: set<Pointer>)
    requires value.Ref? ==> value.p !in active
    ensures Unfolds(heap, Unfold(heap, value, active), active)
    decreases |heap.Keys - active|, ValueSize(value), 0
  {
    var entries, path := Entries(Target(heap, value).fields), active + Entered(value);
    Deeper(heap, value, active);
    UnfoldAllUnfolds(heap, entries, path);
    UnfoldFollows(heap, entries, path);
    ProblemsFound(entries, path, []);
  }

  lemma {:induction false} UnfoldAllUnfolds(heap: Heap, entries: seq<Entry>, path: set<Pointer>)
    ensures forall i :: 0 <= i < |UnfoldAll(heap, entries, path)| ==> Unfolds(heap, UnfoldAll(heap, entries, path)[i], path)
    decreases |heap.Keys - path|, EntriesSize(entries), 1
  {
    hide Unfolds;
    if entries != [] {
      EntryShrinks(entries, path);
      UnfoldAllUnfolds(heap, entries[1..], path);
      match Next(entries[0], path) {
        case Descend(value) => UnfoldUnfolds(heap, value, path);
        case _ =>
      }
    }
  }

  /** The facts of the traversal are those of its tree. */
  lemma {:induction false} WalkTells(heap: Heap, value: Value, parent: NodeId, active: set<Pointer>, next: NodeId)
    requires value.Ref? ==> value.p !in active
    ensures Walk(heap, value, parent, active, next) == Facts(heap, Unfold(heap, value, active), parent, next)
    decreases |heap.Keys - active|, ValueSize(value), 0
  {
    var entries, path := Entries(Target(heap, value).fields), active + Entered(value);
    Deeper(heap, value, active);
    WalkAllTells(heap, entries, next + 1, path, next + 1, []);
  }

  lemma {:induction false} WalkAllTells(heap: Heap, entries: seq<Entry>, id: NodeId, path: set<Pointer>, next: NodeId, problems: seq<Problem>)
    ensures var kids, below := WalkAll(heap, entries, id, path, next, problems), AllFacts(heap, UnfoldAll(heap, entries, path), id, next);
            kids.events == below.events && kids.next == below.next && kids.problems == Problems(entries, path, problems)
    decreases |heap.Keys - path|, EntriesSize(entries), 1
  {
    hide Walk;
    hide Facts;
    hide Unfold;
    if entries != [] {
      EntryShrinks(entries, path);
      match Next(entries[0], path) {
        case Skip => WalkAllTells(heap, entries[1..], id, path, next, problems);
        case Bad(problem) => WalkAllTells(heap, entries[1..], id, path, next, Report(problems, problem));
        case Descend(value) =>
          var os := UnfoldAll(heap, entries, path);
          WalkTells(heap, value, id, path, next);
          assert os[0] == Unfold(heap, value, path) && os[1..] == UnfoldAll(heap, entries[1..], path);
          WalkAllTells(heap, entries[1..], id, path, Walk(heap, value, id, path, next).next, problems);
      }
    }
  }

  /** A walk from a root tells the tree below it: at every occurrence the choices without exactly one
      variant and the ways back are reported, everything else that is present is told in order, and an
      occurrence is complete exactly if nothing was reported for it. */
  lemma WalkIsTold(heap: Heap, root: Value)
    ensures Told(heap, root, Walk(heap, root, 0, {}, 0).events)
  {
    hide Unfolds;
    hide Facts;
    hide Walk;
    WalkTells(heap, root, 0, {}, 0);
    UnfoldUnfolds(heap, root, {});
  }
}
