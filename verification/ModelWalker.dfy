/** The model walker: the traversal with an explicit stack of frames, each with a cursor over
    the fields of its node. */
module ModelWalkers {
  import opened Accounts
  import opened ModelWalk
  import opened ModelTrees

  datatype Path = NoPointer | Pointing(p: Pointer)

  datatype Frame = Frame(id: NodeId, node: Node, pointer: Path, field: nat, index: nat, hole: bool, problems: seq<Problem>)
  {
    ghost predicate Valid() {
      && field <= |node.fields|
      && (index > 0 ==> field < |node.fields| && node.fields[field].Repeated? && index <= |node.fields[field].entries|)
      && (hole <==> problems != [])
    }

    /** The positions the cursor has still to visit. */
    function Rest(): seq<Entry>
      requires Valid()
    {
      if field == |node.fields| then []
      else FieldEntries(node.fields[field])[index..] + Entries(node.fields[field + 1..])
    }
  }

  /** The pointers on a stack of frames. */
  function Pointers(stack: seq<Frame>): set<Pointer> {
    if stack == [] then {}
    else
      var top := stack[|stack| - 1];
      Pointers(stack[..|stack| - 1]) + if top.pointer.Pointing? then {top.pointer.p} else {}
  }

  ghost predicate StackValid(stack: seq<Frame>) {
    && (forall i :: 0 <= i < |stack| ==> stack[i].Valid())
    && (forall i :: 0 <= i < |stack| && stack[i].pointer.Pointing? ==> stack[i].pointer.p !in Pointers(stack[..i]))
  }

  /** The facts still to come: the rest of each frame, innermost first. */
  ghost function Pending(heap: Heap, stack: seq<Frame>, next: NodeId): Trace
    requires StackValid(stack)
    decreases |stack|
  {
    if stack == [] then Trace([], next)
    else
      var top, below := stack[|stack| - 1], stack[..|stack| - 1];
      var kids := WalkAll(heap, top.Rest(), top.id, Pointers(stack), next, top.problems);
      StackValidPop(stack);
      var rest := Pending(heap, below, kids.next);
      Trace(kids.events + Closing(top.id, kids.problems) + rest.events, rest.next)
  }

  ghost function StackWork(heap: Heap, stack: seq<Frame>): nat
    requires StackValid(stack)
    decreases |stack|
  {
    if stack == [] then 0
    else
      StackValidPop(stack);
      Work(heap, stack[|stack| - 1].Rest(), Pointers(stack)) + StackWork(heap, stack[..|stack| - 1])
  }

  lemma StackValidPop(stack: seq<Frame>)
    requires StackValid(stack) && stack != []
    ensures StackValid(stack[..|stack| - 1])
    ensures var top := stack[|stack| - 1];
            Pointers(stack[..|stack| - 1]) == if top.pointer.Pointing? then Pointers(stack) - {top.pointer.p} else Pointers(stack)
  {
    var below := stack[..|stack| - 1];
    assert forall i :: 0 <= i < |below| ==> below[i] == stack[i] && below[..i] == stack[..i];
  }

  lemma StackValidPush(stack: seq<Frame>, frame: Frame)
    requires StackValid(stack) && frame.Valid() && (frame.pointer.Pointing? ==> frame.pointer.p !in Pointers(stack))
    ensures StackValid(stack + [frame]) && (stack + [frame])[..|stack|] == stack
    ensures Pointers(stack + [frame]) == Pointers(stack) + if frame.pointer.Pointing? then {frame.pointer.p} else {}
  {
    hide Frame.Valid;
    var all := stack + [frame];
    assert all[..|stack|] == stack;
    forall i | 0 <= i < |all|
      ensures all[i].Valid() && (all[i].pointer.Pointing? ==> all[i].pointer.p !in Pointers(all[..i]))
    {
      if i < |stack| {
        assert all[i] == stack[i] && all[..i] == stack[..i];
      }
    }
  }

  /** The stack with another cursor or report in its top frame. */
  function WithTop(stack: seq<Frame>, top: Frame): seq<Frame>
    requires stack != []
  {
    stack[..|stack| - 1] + [top]
  }

  lemma StackValidTop(stack: seq<Frame>, top: Frame)
    requires StackValid(stack) && stack != [] && top.Valid() && top.pointer == stack[|stack| - 1].pointer
    ensures StackValid(WithTop(stack, top)) && Pointers(WithTop(stack, top)) == Pointers(stack)
    ensures WithTop(stack, top)[..|stack| - 1] == stack[..|stack| - 1]
  {
    StackValidPop(stack);
    StackValidPush(stack[..|stack| - 1], top);
  }

  // The cursor

  /** At the beginning of a field the rest is the fields from there on. */
  lemma FieldRest(frame: Frame)
    requires frame.Valid() && frame.index == 0
    ensures frame.Rest() == Entries(frame.node.fields[frame.field..])
  {
    var fields, f := frame.node.fields, frame.field;
    if f < |fields| {
      assert fields[f..][0] == fields[f] && fields[f..][1..] == fields[f + 1..];
      assert FieldEntries(fields[f])[0..] == FieldEntries(fields[f]);
    } else {
      assert fields[f..] == [];
    }
  }

  /** Past the last position of a field the next field begins. */
  lemma NextField(frame: Frame)
    requires frame.Valid() && frame.field < |frame.node.fields|
    requires frame.index == |FieldEntries(frame.node.fields[frame.field])|
    ensures var moved := frame.(field := frame.field + 1, index := 0); moved.Valid() && moved.Rest() == frame.Rest()
  {
    FieldRest(frame.(field := frame.field + 1, index := 0));
    assert FieldEntries(frame.node.fields[frame.field])[frame.index..] == [];
  }

  /** The cursor behind a visited position. */
  function Behind(frame: Frame): Frame
    requires frame.Valid() && frame.field < |frame.node.fields|
  {
    if frame.node.fields[frame.field].Repeated? then frame.(index := frame.index + 1) else frame.(field := frame.field + 1)
  }

  lemma NextEntry(frame: Frame)
    requires frame.Valid() && frame.field < |frame.node.fields|
    requires frame.index < |FieldEntries(frame.node.fields[frame.field])|
    ensures Behind(frame).Valid()
    ensures frame.Rest() == [FieldEntries(frame.node.fields[frame.field])[frame.index]] + Behind(frame).Rest()
  {
    hide Entries;
    var fields, f := frame.node.fields, frame.field;
    if fields[f].Repeated? {
      SplitFirst(fields[f].entries, frame.index, Entries(fields[f + 1..]));
    } else {
      FieldRest(frame.(field := f + 1));
      SplitFirst([fields[f].entry], 0, Entries(fields[f + 1..]));
    }
  }

  lemma SplitFirst(a: seq<Entry>, i: nat, rest: seq<Entry>)
    requires i < |a|
    ensures a[i..] + rest == [a[i]] + (a[i + 1..] + rest)
    ensures |a| == 1 ==> a[i..] + rest == [a[0]] + rest
  {
  }

  // How each step of the loop moves facts from Pending to the sink

  /** A position that leads nowhere, or is reported, leaves the facts to come unchanged. */
  lemma PendingSkip(heap: Heap, stack: seq<Frame>, top: Frame, entry: Entry, next: NodeId)
    requires StackValid(stack) && stack != [] && top.Valid()
    requires var former := stack[|stack| - 1]; top.pointer == former.pointer && top.id == former.id && former.Rest() == [entry] + top.Rest()
    requires match Next(entry, Pointers(stack))
             case Skip => top.problems == stack[|stack| - 1].problems
             case Bad(problem) => top.problems == Report(stack[|stack| - 1].problems, problem)
             case Descend(_) => false
    ensures StackValid(WithTop(stack, top)) && Pointers(WithTop(stack, top)) == Pointers(stack)
    ensures Pending(heap, WithTop(stack, top), next) == Pending(heap, stack, next)
    ensures StackWork(heap, WithTop(stack, top)) < StackWork(heap, stack)
  {
    StackValidTop(stack, top);
    assert ([entry] + top.Rest())[1..] == top.Rest();
  }

  /** Entering a node takes its opening facts; its own positions come before the rest. */
  lemma PendingPush(heap: Heap, stack: seq<Frame>, top: Frame, entry: Entry, next: NodeId, value: Value, frame: Frame)
    requires StackValid(stack) && stack != [] && top.Valid()
    requires var former := stack[|stack| - 1];
             top.pointer == former.pointer && top.id == former.id && top.problems == former.problems && former.Rest() == [entry] + top.Rest()
    requires Next(entry, Pointers(stack)) == Descend(value)
    requires frame == NewFrame(heap, value, next + 1)
    ensures frame.Valid() && StackValid(WithTop(stack, top)) && Pointers(WithTop(stack, top)) == Pointers(stack)
    ensures StackValid(WithTop(stack, top) + [frame])
    ensures Pointers(WithTop(stack, top) + [frame]) == Pointers(stack) + Entered(value)
    ensures var before, after := Pending(heap, stack, next), Pending(heap, WithTop(stack, top) + [frame], next + 1);
            before == after.(events := Opening(next + 1, top.id, frame.node.name) + after.events)
    ensures StackWork(heap, WithTop(stack, top) + [frame]) < StackWork(heap, stack)
  {
    StackValidTop(stack, top);
    StackValidPush(WithTop(stack, top), frame);
    FieldRest(frame);
    assert frame.node.fields[0..] == frame.node.fields;
    assert ([entry] + top.Rest())[1..] == top.Rest();
    PendingPushEvents(heap, stack, top, entry, next, value, frame);
  }

  lemma PendingPushEvents(heap: Heap, stack: seq<Frame>, top: Frame, entry: Entry, next: NodeId, value: Value, frame: Frame)
    requires StackValid(stack) && stack != [] && top.Valid()
    requires var former := stack[|stack| - 1];
             top.pointer == former.pointer && top.id == former.id && top.problems == former.problems && former.Rest() == [entry] + top.Rest()
    requires Next(entry, Pointers(stack)) == Descend(value)
    requires frame == NewFrame(heap, value, next + 1)
    requires frame.Rest() == Entries(frame.node.fields)
    requires StackValid(WithTop(stack, top)) && Pointers(WithTop(stack, top)) == Pointers(stack)
    requires StackValid(WithTop(stack, top) + [frame]) && Pointers(WithTop(stack, top) + [frame]) == Pointers(stack) + Entered(value)
    ensures var before, after := Pending(heap, stack, next), Pending(heap, WithTop(stack, top) + [frame], next + 1);
            before == after.(events := Opening(next + 1, top.id, frame.node.name) + after.events)
  {
    hide Pending;
    hide WalkAll;
    hide Walk;
    hide Pointers;
    hide StackValid;
    hide Frame.Rest;
    var middle := WithTop(stack, top);
    var all := middle + [frame];
    assert all[..|all| - 1] == middle && middle[..|stack| - 1] == stack[..|stack| - 1];
    var first := Walk(heap, value, top.id, Pointers(stack), next);
    var kids := WalkAll(heap, frame.Rest(), frame.id, Pointers(all), next + 1, []);
    var rest := WalkAll(heap, top.Rest(), top.id, Pointers(stack), first.next, top.problems);
    WalkUnfold(heap, value, top.id, Pointers(stack), next);
    WalkAllDescend(heap, entry, top.Rest(), top.id, Pointers(stack), next, top.problems, value);
    PendingUnfold(heap, stack, next);
    PendingUnfold(heap, all, next + 1);
    PendingUnfold(heap, middle, kids.next);
    var below := Pending(heap, stack[..|stack| - 1], rest.next);
    var o, k, c, r, d := Opening(next + 1, top.id, frame.node.name), kids.events, Closing(next + 1, kids.problems),
                         rest.events, Closing(top.id, rest.problems);
    Regroup(o, k, c, r, d, below.events);
  }

  lemma Regroup(o: seq<Event>, k: seq<Event>, c: seq<Event>, r: seq<Event>, d: seq<Event>, b: seq<Event>)
    ensures ((o + k + c) + r) + d + b == o + (k + c + (r + d + b))
  {
  }

  lemma WalkUnfold(heap: Heap, value: Value, parent: NodeId, active: set<Pointer>, next: NodeId)
    requires value.Ref? ==> value.p !in active
    ensures var frame := NewFrame(heap, value, next + 1);
            var kids := WalkAll(heap, Entries(frame.node.fields), next + 1, active + Entered(value), next + 1, []);
            Walk(heap, value, parent, active, next) ==
            Trace(Opening(next + 1, parent, frame.node.name) + kids.events + Closing(next + 1, kids.problems), kids.next)
  {
    hide WalkAll;
    hide Entries;
  }

  lemma WalkAllDescend(heap: Heap, entry: Entry, entries: seq<Entry>, id: NodeId, active: set<Pointer>, next: NodeId,
                       problems: seq<Problem>, value: Value)
    requires Next(entry, active) == Descend(value)
    ensures value.Ref? ==> value.p !in active
    ensures var first := Walk(heap, value, id, active, next);
            var rest := WalkAll(heap, entries, id, active, first.next, problems);
            WalkAll(heap, [entry] + entries, id, active, next, problems) == rest.(events := first.events + rest.events)
  {
    hide Walk;
    assert ([entry] + entries)[1..] == entries;
  }

  lemma PendingUnfold(heap: Heap, stack: seq<Frame>, next: NodeId)
    requires StackValid(stack) && stack != []
    ensures StackValid(stack[..|stack| - 1]) && stack[|stack| - 1].Valid()
    ensures var top := stack[|stack| - 1];
            var kids := WalkAll(heap, top.Rest(), top.id, Pointers(stack), next, top.problems);
            var rest := Pending(heap, stack[..|stack| - 1], kids.next);
            Pending(heap, stack, next) == Trace(kids.events + Closing(top.id, kids.problems) + rest.events, rest.next)
  {
    hide WalkAll;
    hide Frame.Rest;
    StackValidPop(stack);
  }

  /** A frame without positions left gives its closing facts. */
  lemma PendingClose(heap: Heap, stack: seq<Frame>, next: NodeId)
    requires StackValid(stack) && stack != [] && stack[|stack| - 1].Rest() == []
    ensures var top, below := stack[|stack| - 1], stack[..|stack| - 1];
            && StackValid(below) && Pointers(below) == Pointers(stack) - (if top.pointer.Pointing? then {top.pointer.p} else {})
            && Pending(heap, stack, next).events == Closing(top.id, top.problems) + Pending(heap, below, next).events
            && Pending(heap, stack, next).next == Pending(heap, below, next).next
            && StackWork(heap, below) < StackWork(heap, stack)
  {
    hide Pending;
    StackValidPop(stack);
    PendingUnfold(heap, stack, next);
  }

  function Opening(id: NodeId, parent: NodeId, name: string): seq<Event> {
    [OpenNode(id, parent, name), CompleteAttributes(id)]
  }

  function NewFrame(heap: Heap, value: Value, id: NodeId): Frame {
    Frame(id, Target(heap, value), if value.Ref? then Pointing(value.p) else NoPointer, 0, 0, false, [])
  }

  // Depth: the number of open nodes

  /** The largest number of nodes open at once while reading a sequence. */
  function Peak(events: seq<Event>, open: nat): (n: nat)
    ensures n >= open
  {
    if events == [] then open
    else
      var open' := match events[0]
                   case OpenNode(_, _, _) => open + 1
                   case CloseNode(_, _) => if open > 0 then open - 1 else 0
                   case _ => open;
      var rest := Peak(events[1..], open');
      if rest > open then rest else open
  }

  /** Reading one more fact changes the peak by what is open then. */
  lemma {:induction false} PeakAppend(events: seq<Event>, event: Event, nodes: seq<NodeId>, nodes': seq<NodeId>)
    requires Replay(events, nodes) == Open(nodes')
    ensures var after := if event.OpenNode? then |nodes'| + 1 else |nodes'|;
            Peak(events + [event], |nodes|) == if Peak(events, |nodes|) > after then Peak(events, |nodes|) else after
    decreases |events|
  {
    if events == [] {
      assert [event][1..] == [] && events + [event] == [event];
    } else {
      assert (events + [event])[1..] == events[1..] + [event] && (events + [event])[0] == events[0];
      PeakAppend(events[1..], event, ReplayOne(events[0], nodes).nodes, nodes');
    }
  }

  /** A longer sequence reaches at least the depth of its beginning. */
  lemma {:induction false} PeakPrefix(a: seq<Event>, b: seq<Event>, open: nat)
    ensures Peak(a + b, open) >= Peak(a, open)
    decreases |a|
  {
    if a == [] {
      assert a + b == b;
    } else {
      assert (a + b)[0] == a[0] && (a + b)[1..] == a[1..] + b;
      var open' := match a[0]
                   case OpenNode(_, _, _) => open + 1
                   case CloseNode(_, _) => if open > 0 then open - 1 else 0
                   case _ => open;
      PeakPrefix(a[1..], b, open');
    }
  }

  function Ids(stack: seq<Frame>): seq<NodeId> {
    seq(|stack|, i requires 0 <= i < |stack| => stack[i].id)
  }

  datatype Ending = Completed | TooDeep | Stopped

  /** A cycle has been reported by a closed node, or is noted for one that is still open. */
  ghost predicate Reported(events: seq<Event>) {
    exists i :: 0 <= i < |events| && ReportsCycle(events[i])
  }

  predicate ReportsCycle(event: Event) {
    event.Representation? && ModelCycle in event.problems
  }

  ghost predicate Noted(stack: seq<Frame>) {
    exists i :: 0 <= i < |stack| && NotesCycle(stack[i])
  }

  predicate NotesCycle(frame: Frame) {
    ModelCycle in frame.problems
  }

  lemma NotedTop(stack: seq<Frame>, top: Frame)
    ensures Noted(stack + [top]) <==> Noted(stack) || NotesCycle(top)
  {
    var all := stack + [top];
    assert all[|stack|] == top;
    if Noted(stack) {
      var i :| 0 <= i < |stack| && NotesCycle(stack[i]);
      assert all[i] == stack[i];
    }
    if Noted(all) {
      var i :| 0 <= i < |all| && NotesCycle(all[i]);
      assert i < |stack| ==> all[i] == stack[i];
    }
  }

  lemma ReportedMore(events: seq<Event>, more: seq<Event>)
    ensures Reported(events + more) <==> Reported(events) || Reported(more)
  {
    var all := events + more;
    if Reported(events) {
      var i :| 0 <= i < |events| && ReportsCycle(events[i]);
      assert all[i] == events[i];
    }
    if Reported(more) {
      var i :| 0 <= i < |more| && ReportsCycle(more[i]);
      assert all[|events| + i] == more[i];
    }
    if Reported(all) {
      var i :| 0 <= i < |all| && ReportsCycle(all[i]);
      assert if i < |events| then all[i] == events[i] else all[i] == more[i - |events|];
    }
  }

  lemma OpeningReports(id: NodeId, parent: NodeId, name: string)
    ensures !Reported(Opening(id, parent, name))
  {
  }

  lemma ClosingReports(id: NodeId, problems: seq<Problem>)
    ensures Reported(Closing(id, problems)) <==> ModelCycle in problems
  {
    assert Closing(id, problems)[0] == Representation(id, problems);
  }

  /** Replacing the top frame. */
  lemma NotedReplaced(stack: seq<Frame>, top: Frame)
    requires stack != []
    ensures Noted(WithTop(stack, top)) <==> Noted(stack[..|stack| - 1]) || NotesCycle(top)
    ensures Noted(stack) <==> Noted(stack[..|stack| - 1]) || NotesCycle(stack[|stack| - 1])
  {
    var below := stack[..|stack| - 1];
    NotedTop(below, top);
    NotedTop(below, stack[|stack| - 1]);
    assert stack == below + [stack[|stack| - 1]] && WithTop(stack, top) == below + [top];
  }

  const WALKER_BYTES: nat := 256

  /** The next capacity of a table. */
  function Doubled(capacity: nat): (r: nat)
    ensures r > capacity
  {
    if capacity < 4 then 8 else 2 * capacity
  }

  function Total(held: seq<nat>): nat {
    if held == [] then 0 else Total(held[..|held| - 1]) + held[|held| - 1]
  }

  lemma TotalLast(held: seq<nat>)
    requires held != []
    ensures Total(held) == Total(held[..|held| - 1]) + held[|held| - 1]
  {
  }

  lemma TotalMore(held: seq<nat>, n: nat)
    ensures Total(held + [n]) == Total(held) + n
  {
    assert (held + [n])[..|held|] == held;
  }

  lemma TotalTop(held: seq<nat>, n: nat)
    requires held != []
    ensures Total(held[..|held| - 1] + [n]) == Total(held) - held[|held| - 1] + n
  {
    TotalMore(held[..|held| - 1], n);
  }

  class ModelWalker {
    const account: Account
    const heap: Heap
    const maxDepth: nat                 // 0 means no cap of its own
    var stack: seq<Frame>
    var active: set<Pointer>
    var next: NodeId
    var depth: nat                      // the most frames ever on the stack
    var hasCycle: bool
    var sink: seq<Event>                // what the fact sink has received
    var retained: nat                   // buffered bytes charged and not returned
    var held: seq<nat>                  // those of each frame
    var stackCapacity: nat
    var activeCapacity: nat
    ghost const whole: Trace            // the facts of the recursive traversal

    /** The sink has a beginning of the whole, the stack stands for the remainder, and the
        active pointers are those on the stack. */
    ghost predicate Valid()
      reads this
    {
      && StackValid(stack) && active == Pointers(stack)
      && (var rest := Pending(heap, stack, next); sink + rest.events == whole.events && rest.next == whole.next)
      && Recorded()
    }

    /** Live bytes on the account that belong to someone else. */
    ghost function Others(): int
      reads this`retained, account
    {
      account.usage.buffered - retained
    }

    /** What is charged is the walker, its two tables and the frames on the stack. */
    ghost predicate Exact()
      reads this`retained, this`held, this`stackCapacity, this`activeCapacity, this`stack, this`active
    {
      && |held| == |stack| <= stackCapacity && |active| <= activeCapacity
      && retained == WALKER_BYTES + 8 * stackCapacity + 128 * activeCapacity + Total(held)
    }

    constructor (account: Account, heap: Heap, maxDepth: nat, root: Value)
      ensures Exact() && retained == WALKER_BYTES
      ensures this.account == account && this.heap == heap && this.maxDepth == maxDepth
      ensures stack == [] && active == {} && next == 0 && sink == [] && depth == 0 && !hasCycle
      ensures whole == Walk(heap, root, 0, {}, 0)
    {
      this.account, this.heap, this.maxDepth := account, heap, maxDepth;
      stack, active, next, depth, hasCycle, sink := [], {}, 0, 0, false, [];
      whole := Walk(heap, root, 0, {}, 0);
      retained, held, stackCapacity, activeCapacity := WALKER_BYTES, [], 0, 0;
    }

    method Retain(n: nat) returns (ok: bool)
      modifies this`retained, account
      ensures Others() == old(Others()) && retained == old(retained) + (if ok then n else 0)
      ensures account.ample ==> ok
    {
      ok := account.Charge(Buffered, n);
      if ok {
        retained := retained + n;
      }
    }

    method Release(n: nat)
      requires Others() >= 0 && n <= retained
      modifies this`retained, account
      ensures Others() == old(Others()) && retained == old(retained) - n
    {
      var _ := account.Release(n);
      retained := retained - n;
    }

    /** Room for one more frame and one more pointer; a larger table is charged while the smaller
        one is copied. */
    method MakeRoom(pointing: bool) returns (ok: bool)
      requires Exact() && Others() >= 0
      modifies this`retained, this`stackCapacity, this`activeCapacity, account
      ensures Others() == old(Others())
      ensures ok ==> Exact() && |stack| < stackCapacity && (pointing ==> |active| < activeCapacity)
      ensures account.ample ==> ok
    {
      hide Total;
      ok := true;
      if |stack| == stackCapacity {
        var capacity := Doubled(stackCapacity);
        ok := Replace(8 * stackCapacity, 8 * capacity);
        if !ok {
          return;
        }
        stackCapacity := capacity;
      }
      if pointing && |active| == activeCapacity {
        var capacity := Doubled(activeCapacity);
        ok := Replace(128 * activeCapacity, 128 * capacity);
        if !ok {
          return;
        }
        activeCapacity := capacity;
      }
    }

    /** Both tables are charged while one is copied into the other. */
    method Replace(former: nat, larger: nat) returns (ok: bool)
      requires Others() >= 0 && former <= retained
      modifies this`retained, account
      ensures Others() == old(Others()) && (ok ==> retained == old(retained) + larger - former)
      ensures account.ample ==> ok
    {
      ok := Retain(larger);
      if ok {
        ok := account.Admit();
      }
      if ok {
        Release(former);
      }
    }

    /** A problem that is new to the top frame is kept with it, in an array that grows by one. */
    method KeepProblem(problems: seq<Problem>, problem: Problem) returns (ok: bool)
      requires Exact() && Others() >= 0 && stack != []
      modifies this`retained, this`held, account
      ensures Others() == old(Others()) && (ok ==> Exact())
      ensures account.ample ==> ok
    {
      hide Total;
      if problem in problems {
        return true;
      }
      var text :| 0 <= text;            // the bytes of the path and of the texts
      ok := Retain(512 + text);
      if ok {
        ok := Retain(256 * (|problems| + 1));
      }
      if !ok {
        return;
      }
      Release(256 * |problems|);
      var top := |held| - 1;
      TotalTop(held, held[top] + 512 + text + 256);
      held := held[..top] + [held[top] + 512 + text + 256];
    }

    /** The bytes of a frame that is about to be pushed. */
    method ChargeFrame(pointing: bool) returns (ok: bool)
      requires Exact() && Others() >= 0
      modifies this`retained, this`held, this`stackCapacity, this`activeCapacity, account
      ensures Others() == old(Others())
      ensures ok ==>
                && |held| == |stack| + 1 <= stackCapacity && |active| + (if pointing then 1 else 0) <= activeCapacity
                && retained == WALKER_BYTES + 8 * stackCapacity + 128 * activeCapacity + Total(held)
      ensures account.ample ==> ok
    {
      hide Total;
      ok := account.Admit();
      if ok {
        ok := MakeRoom(pointing);
      }
      if !ok {
        return;
      }
      var path :| 0 <= path;            // the bytes of the path
      ok := Retain(512 + path);
      if ok {
        TotalMore(held, 512 + path);
        held := held + [512 + path];
      }
    }

    ghost predicate Seen()
      reads this
    {
      Reported(sink) || Noted(stack)
    }

    /** The depth record and the open nodes agree with what the sink has received. */
    ghost predicate Recorded()
      reads this
    {
      Replay(sink, []) == Open(Ids(stack)) && depth == Peak(sink, 0) && (maxDepth > 0 ==> depth <= maxDepth)
    }

    /** A new frame, its pointer and its opening facts, unless the nesting cap forbids it. */
    method Enter(value: Value, parent: NodeId) returns (out: Ending)
      requires StackValid(stack) && active == Pointers(stack) && Recorded() && parent == Parent(Ids(stack))
      requires value.Ref? ==> value.p !in active
      requires Exact() && Others() >= 0
      modifies this`stack, this`active, this`next, this`depth, this`sink
      modifies this`retained, this`held, this`stackCapacity, this`activeCapacity, account
      ensures Others() == old(Others()) && (out.Completed? ==> Exact())
      ensures out.TooDeep? <==> maxDepth > 0 && |old(stack)| >= maxDepth
      ensures out.TooDeep? ==> sink == old(sink)
      ensures out.Completed? ==>
                && stack == old(stack) + [NewFrame(heap, value, old(next) + 1)] && active == old(active) + Entered(value)
                && next == old(next) + 1 && sink == old(sink) + Opening(next, parent, Target(heap, value).name)
                && Recorded()
      ensures out.Stopped? ==> sink <= old(sink) + Opening(old(next) + 1, parent, Target(heap, value).name)
      ensures account.ample ==> !out.Stopped?
    {
      hide Peak;
      hide Replay;
      hide Pointers;
      hide Ids;
      hide StackValid;
      if maxDepth > 0 && |stack| >= maxDepth {
        return TooDeep;
      }
      hide Total;
      hide Target;
      var charged := ChargeFrame(value.Ref?);
      if !charged {
        return Stopped;
      }
      EnterRecord(sink, stack, NewFrame(heap, value, next + 1), parent);
      Place(value);
      var announced := Announce(Opening(next, parent, Target(heap, value).name));
      out := if announced then Completed else Stopped;
    }

    /** The frame of a value goes on the stack, and its pointer into the table. */
    method Place(value: Value)
      requires |held| == |stack| + 1 <= stackCapacity && |active| + (if value.Ref? then 1 else 0) <= activeCapacity
      modifies this`stack, this`active, this`next, this`depth
      ensures next == old(next) + 1 && stack == old(stack) + [NewFrame(heap, value, next)]
      ensures active == old(active) + Entered(value) && |active| <= activeCapacity
      ensures depth == if |stack| > old(depth) then |stack| else old(depth)
    {
      hide Target;
      next := next + 1;
      stack := stack + [NewFrame(heap, value, next)];
      if |stack| > depth {
        depth := |stack|;
      }
      if value.Ref? {
        active := active + {value.p};
      }
    }

    /** Two facts for the sink, each of which it may refuse. */
    method Announce(facts: seq<Event>) returns (ok: bool)
      requires |facts| == 2
      modifies this`sink
      ensures ok ==> sink == old(sink) + facts
      ensures sink <= old(sink) + facts
      ensures account.ample ==> ok
    {
      ok := account.Admit();
      if !ok {
        return;
      }
      sink := sink + [facts[0]];
      ok := account.Admit();
      if !ok {
        return;
      }
      sink := sink + [facts[1]];
    }

    method Leave() returns (out: Ending)
      requires StackValid(stack) && active == Pointers(stack) && Recorded() && stack != []
      requires Exact() && Others() >= 0
      modifies this`stack, this`active, this`sink, this`retained, this`held, account
      ensures Others() == old(Others()) && (out.Completed? ==> Exact())
      ensures out.Completed? || out.Stopped?
      ensures var top := old(stack)[|old(stack)| - 1];
              && (out.Completed? ==>
                    && stack == old(stack)[..|old(stack)| - 1] && active == Pointers(stack) && StackValid(stack)
                    && sink == old(sink) + Closing(top.id, top.problems) && Recorded())
              && (out.Stopped? ==> sink <= old(sink) + Closing(top.id, top.problems))
      ensures account.ample ==> !out.Stopped?
    {
      hide Peak;
      hide Replay;
      hide Pointers;
      hide Ids;
      hide Total;
      hide StackValid;
      TopValid(stack);
      var top := stack[|stack| - 1];
      StackValidPop(stack);
      LeaveRecord(sink, stack);
      var announced := Announce([Representation(top.id, top.problems), CloseNode(top.id, !top.hole)]);
      if !announced {
        return Stopped;
      }
      if top.pointer.Pointing? {
        active := active - {top.pointer.p};
      }
      ReleaseFrame();
      stack := stack[..|stack| - 1];
      out := Completed;
    }

    /** The bytes of the top frame go back to the account. */
    method ReleaseFrame()
      requires Others() >= 0 && held != [] && Total(held) <= retained
      modifies this`retained, this`held, account
      ensures Others() == old(Others()) && held == old(held)[..|old(held)| - 1]
      ensures retained - Total(held) == old(retained) - Total(old(held))
    {
      hide Total;
      TotalLast(held);
      Release(held[|held| - 1]);
      held := held[..|held| - 1];
    }

    /** Replaces the top frame by one with another cursor or report. */
    method SetTop(top: Frame)
      requires stack != [] && StackValid(stack) && Recorded() && top.Valid()
      requires top.id == stack[|stack| - 1].id && top.pointer == stack[|stack| - 1].pointer
      modifies this`stack
      ensures stack == WithTop(old(stack), top) && StackValid(stack) && Recorded() && Pointers(stack) == Pointers(old(stack))
    {
      hide Peak;
      hide Replay;
      hide Pointers;
      hide StackValid;
      StackValidTop(stack, top);
      assert Ids(WithTop(stack, top)) == Ids(stack);
      stack := WithTop(stack, top);
    }

    /** A position behind which there is nothing, or nothing that can be followed. */
    method Pass(top: Frame, entry: Entry)
      requires Valid() && stack != [] && top.Valid()
      requires top.pointer == stack[|stack| - 1].pointer && top.id == stack[|stack| - 1].id
      requires stack[|stack| - 1].Rest() == [entry] + top.Rest()
      requires match Next(entry, active)
               case Skip => top.problems == stack[|stack| - 1].problems
               case Bad(problem) => top.problems == Report(stack[|stack| - 1].problems, problem)
               case Descend(_) => false
      modifies this`stack
      ensures Valid() && |stack| == |old(stack)| && StackWork(heap, stack) < StackWork(heap, old(stack))
      ensures Seen() <==> old(Seen()) || Next(entry, active) == Bad(ModelCycle)
    {
      hide Peak;
      hide Replay;
      hide Pointers;
      hide StackValid;
      hide Pending;
      hide StackWork;
      hide Frame.Rest;
      hide Noted;
      hide Reported;
      PendingSkip(heap, stack, top, entry, next);
      NotedReplaced(stack, top);
      SetTop(top);
    }

    /** A position that is reported with the node it belongs to. */
    method Reject(top: Frame, entry: Entry, problem: Problem) returns (out: Ending)
      requires Valid() && stack != [] && top.Valid()
      requires top.pointer == stack[|stack| - 1].pointer && top.id == stack[|stack| - 1].id
      requires top.problems == stack[|stack| - 1].problems && stack[|stack| - 1].Rest() == [entry] + top.Rest()
      requires Next(entry, active) == Bad(problem)
      requires Exact() && Others() >= 0
      modifies this`stack, this`retained, this`held, account
      ensures Others() == old(Others()) && (out.Completed? ==> Exact())
      ensures out.Completed? || (out.Stopped? && !account.ample)
      ensures out.Completed? ==> Valid() && StackWork(heap, stack) < StackWork(heap, old(stack))
      ensures out.Completed? ==> (Seen() <==> old(Seen()) || problem == ModelCycle)
    {
      hide Frame.Rest;
      hide Noted;
      hide Reported;
      hide Peak;
      hide Replay;
      hide Pointers;
      hide StackValid;
      hide Pending;
      hide StackWork;
      hide Total;
      var kept := KeepProblem(top.problems, problem);
      if !kept {
        return Stopped;
      }
      RestNoted(top, problem);
      Pass(top.(hole := true, problems := Report(top.problems, problem)), entry);
      out := Completed;
    }

    /** A position behind which a node is entered. */
    method Follow(top: Frame, entry: Entry, value: Value) returns (out: Ending)
      requires Valid() && stack != [] && top.Valid()
      requires top.pointer == stack[|stack| - 1].pointer && top.id == stack[|stack| - 1].id
      requires top.problems == stack[|stack| - 1].problems && stack[|stack| - 1].Rest() == [entry] + top.Rest()
      requires Next(entry, active) == Descend(value)
      requires Exact() && Others() >= 0
      modifies this`stack, this`active, this`next, this`depth, this`sink
      modifies this`retained, this`held, this`stackCapacity, this`activeCapacity, account
      ensures Others() == old(Others()) && (out.Completed? ==> Exact())
      ensures out.Completed? ==> Valid() && StackWork(heap, stack) < StackWork(heap, old(stack)) && Seen() == old(Seen())
      ensures out.TooDeep? ==> 0 < maxDepth < Peak(whole.events, 0)
      ensures sink <= whole.events
      ensures account.ample ==> !out.Stopped?
    {
      hide Total;
      hide Peak;
      hide Replay;
      hide Pointers;
      hide StackValid;
      hide Pending;
      hide StackWork;
      hide Frame.Rest;
      hide Noted;
      hide Reported;
      NotedReplaced(stack, top);
      ghost var frame := NewFrame(heap, value, next + 1);
      PendingPush(heap, stack, top, entry, next, value, frame);
      SetTop(top);
      ghost var middle := stack;
      ghost var rest := Pending(heap, stack + [frame], next + 1).events;
      ghost var opening := Opening(next + 1, top.id, frame.node.name);
      assert sink + (opening + rest) == sink + opening + rest;
      TooDeepPeak(sink, middle, opening, rest);
      NotedTop(middle, frame);
      ReportedMore(sink, opening);
      OpeningReports(next + 1, top.id, frame.node.name);
      out := Enter(value, top.id);
    }

    method CloseFrame() returns (out: Ending)
      requires Valid() && stack != [] && stack[|stack| - 1].Valid() && stack[|stack| - 1].Rest() == []
      requires Exact() && Others() >= 0
      modifies this`stack, this`active, this`sink, this`retained, this`held, account
      ensures Others() == old(Others()) && (out.Completed? ==> Exact())
      ensures out.Completed? || out.Stopped?
      ensures out.Completed? ==> Valid() && StackWork(heap, stack) < StackWork(heap, old(stack)) && Seen() == old(Seen())
      ensures sink <= whole.events
      ensures account.ample ==> !out.Stopped?
    {
      hide Total;
      hide Peak;
      hide Replay;
      hide Pending;
      hide StackWork;
      hide Pointers;
      hide StackValid;
      hide Frame.Rest;
      hide Noted;
      hide Reported;
      NotedReplaced(stack, stack[|stack| - 1]);
      ReportedMore(sink, Closing(stack[|stack| - 1].id, stack[|stack| - 1].problems));
      ClosingReports(stack[|stack| - 1].id, stack[|stack| - 1].problems);
      PendingClose(heap, stack, next);
      ghost var closing := Closing(stack[|stack| - 1].id, stack[|stack| - 1].problems);
      ghost var rest := Pending(heap, stack[..|stack| - 1], next).events;
      assert sink + (closing + rest) == sink + closing + rest;
      out := Leave();
    }

    /** One round of the walk. */
    method Round() returns (out: Ending)
      requires Valid() && stack != [] && hasCycle == Seen()
      requires Exact() && Others() >= 0
      modifies this`stack, this`active, this`next, this`depth, this`sink, this`hasCycle
      modifies this`retained, this`held, this`stackCapacity, this`activeCapacity, account
      ensures Others() == old(Others()) && (out.Completed? ==> Exact())
      ensures out.Completed? ==> Valid() && Sooner(heap, stack, old(stack)) && hasCycle == Seen()
      ensures out.TooDeep? ==> 0 < maxDepth < Peak(whole.events, 0)
      ensures sink <= whole.events
      ensures account.ample ==> !out.Stopped?
    {
      hide Total;
      hide Frame.Rest;
      hide Noted;
      hide Reported;
      hide Peak;
      hide Replay;
      hide Pending;
      hide StackWork;
      hide Entries;
      hide Pointers;
      hide StackValid;
      hide FieldsLeft;
      var admitted := account.Admit();
      if !admitted {
        return Stopped;
      }
      var frame := stack[|stack| - 1];
      TopValid(stack);
      if frame.field >= |frame.node.fields| {
        EndRest(frame);
        out := CloseFrame();
        return;
      }
      var field := frame.node.fields[frame.field];
      if field.Repeated? && frame.index >= |field.entries| {
        AdvanceField(frame);
        return Completed;
      }
      NextEntry(frame);
      var entry := if field.Repeated? then field.entries[frame.index] else field.entry;
      out := VisitEntry(Behind(frame), entry);
    }

    /** The end of a repeated field. */
    method AdvanceField(frame: Frame)
      requires Valid() && stack != [] && frame == stack[|stack| - 1] && frame.Valid() && frame.field < |frame.node.fields|
      requires frame.node.fields[frame.field].Repeated? && frame.index >= |frame.node.fields[frame.field].entries|
      modifies this`stack
      ensures Valid() && |stack| == |old(stack)| && Sooner(heap, stack, old(stack)) && Seen() == old(Seen())
    {
      hide Noted;
      hide Reported;
      hide Peak;
      hide Replay;
      hide Pending;
      hide StackWork;
      hide Entries;
      hide Pointers;
      hide StackValid;
      hide FieldsLeft;
      NextField(frame);
      var moved := frame.(field := frame.field + 1, index := 0);
      SameRest(heap, stack, moved, next);
      FieldsFewer(stack, moved);
      NotedReplaced(stack, moved);
      SetTop(moved);
    }

    /** One position of the top frame, the cursor being behind it already. */
    method VisitEntry(moved: Frame, entry: Entry) returns (out: Ending)
      requires Valid() && stack != [] && moved.Valid()
      requires moved.pointer == stack[|stack| - 1].pointer && moved.id == stack[|stack| - 1].id
      requires moved.problems == stack[|stack| - 1].problems && stack[|stack| - 1].Rest() == [entry] + moved.Rest()
      requires hasCycle == Seen()
      requires Exact() && Others() >= 0
      modifies this`stack, this`active, this`next, this`depth, this`sink, this`hasCycle
      modifies this`retained, this`held, this`stackCapacity, this`activeCapacity, account
      ensures Others() == old(Others()) && (out.Completed? ==> Exact())
      ensures out.Completed? ==> Valid() && StackWork(heap, stack) < StackWork(heap, old(stack)) && hasCycle == Seen()
      ensures out.TooDeep? ==> 0 < maxDepth < Peak(whole.events, 0)
      ensures sink <= whole.events
      ensures account.ample ==> !out.Stopped?
    {
      hide Total;
      hide Noted;
      hide Reported;
      hide Peak;
      hide Replay;
      hide Pending;
      hide StackWork;
      hide Pointers;
      hide StackValid;
      match entry {
        case Missing =>
          Pass(moved, entry);
          out := Completed;
        case Choice(selected) =>
          if |selected| != 1 {
            out := Reject(moved, entry, ChoiceCardinality);
          } else {
            assert selected == [selected[0]];
            out := PushValue(moved, entry, Ref(selected[0]));
          }
        case Plain(value) =>
          out := PushValue(moved, entry, value);
      }
    }

    /** A represented value: a pointer already on the path is reported, anything else entered. */
    method PushValue(top: Frame, entry: Entry, value: Value) returns (out: Ending)
      requires Valid() && stack != [] && top.Valid()
      requires top.pointer == stack[|stack| - 1].pointer && top.id == stack[|stack| - 1].id
      requires top.problems == stack[|stack| - 1].problems && stack[|stack| - 1].Rest() == [entry] + top.Rest()
      requires entry == Plain(value) || (value.Ref? && entry == Choice([value.p]))
      requires hasCycle == Seen()
      requires Exact() && Others() >= 0
      modifies this`stack, this`active, this`next, this`depth, this`sink, this`hasCycle
      modifies this`retained, this`held, this`stackCapacity, this`activeCapacity, account
      ensures Others() == old(Others()) && (out.Completed? ==> Exact())
      ensures out.Completed? ==> Valid() && StackWork(heap, stack) < StackWork(heap, old(stack)) && hasCycle == Seen()
      ensures out.TooDeep? ==> 0 < maxDepth < Peak(whole.events, 0)
      ensures sink <= whole.events
      ensures account.ample ==> !out.Stopped?
    {
      hide Total;
      hide Frame.Rest;
      hide Noted;
      hide Reported;
      hide Peak;
      hide Replay;
      hide Pointers;
      hide StackValid;
      hide Pending;
      hide StackWork;
      var admitted := account.Admit();
      if !admitted {
        return Stopped;
      }
      if value.Ref? && value.p in active {
        hasCycle := true;
        out := Reject(top, entry, ModelCycle);
        return;
      }
      out := Follow(top, entry, value);
    }

    method Begin(root: Value) returns (out: Ending)
      requires stack == [] && active == {} && next == 0 && sink == [] && depth == 0 && !hasCycle
      requires whole == Walk(heap, root, 0, {}, 0)
      requires Exact() && Others() >= 0
      modifies this`stack, this`active, this`next, this`depth, this`sink
      modifies this`retained, this`held, this`stackCapacity, this`activeCapacity, account
      ensures Others() == old(Others()) && (out.Completed? ==> Exact())
      ensures sink <= whole.events
      ensures out.Completed? ==> Valid() && hasCycle == Seen()
      ensures out.TooDeep? ==> 0 < maxDepth < Peak(whole.events, 0)
      ensures account.ample ==> !out.Stopped?
    {
      hide Total;
      hide Peak;
      hide Replay;
      hide Pending;
      hide Walk;
      hide WalkAll;
      hide StackValid;
      hide Pointers;
      hide Target;
      StartRecord();
      StartPending(heap, root);
      ghost var opening := Opening(1, 0, Target(heap, root).name);
      TooDeepPeak([], [], opening, whole.events[2..]);
      assert [] + opening + whole.events[2..] == whole.events && [] + opening == opening;
      OpeningReports(1, 0, Target(heap, root).name);
      out := Enter(root, 0);
      assert [] + [NewFrame(heap, root, 1)] == [NewFrame(heap, root, 1)];
    }

    /** The explicit stack hands the sink exactly the facts of the recursive traversal, or a
        beginning of them if it is stopped; it refuses for depth exactly if the traversal
        nests deeper than the cap, and it has met a cycle exactly if some node reports one. */
    method Run(root: Value) returns (out: Ending)
      requires stack == [] && active == {} && next == 0 && sink == [] && depth == 0 && !hasCycle
      requires whole == Walk(heap, root, 0, {}, 0)
      requires Exact() && Others() >= 0
      modifies this, account
      ensures Others() == old(Others())
      ensures out.Completed? ==> retained == WALKER_BYTES + 8 * stackCapacity + 128 * activeCapacity
      ensures sink <= whole.events
      ensures out.Completed? ==>
                && sink == whole.events && Told(heap, root, sink) && next == whole.next && stack == [] && active == {}
                && depth == Peak(whole.events, 0) && (maxDepth > 0 ==> depth <= maxDepth)
                && (hasCycle <==> Reported(whole.events))
      ensures out.TooDeep? ==> 0 < maxDepth < Peak(whole.events, 0)
      ensures account.ample ==> !out.Stopped?
    {
      hide Told;
      hide Noted;
      hide Reported;
      hide Peak;
      hide Pending;
      hide StackWork;
      hide Walk;
      hide FieldsLeft;
      hide StackValid;
      out := Begin(root);
      if !out.Completed? {
        return;
      }
      while stack != []
        invariant Valid() && hasCycle == Seen() && Exact() && Others() == old(Others())
        decreases StackWork(heap, stack), FieldsLeft(stack)
      {
        out := Round();
        if !out.Completed? {
          return;
        }
      }
      EndPending(heap, next);
      WalkIsTold(heap, root);
      out := Completed;
    }
  }

  /** A walk returns to the account everything it charged, however it ends. */
  method WalkModel(account: Account, heap: Heap, maxDepth: nat, root: Value) returns (out: Ending, facts: seq<Event>, cyclic: bool)
    modifies account
    ensures account.usage.buffered == old(account.usage.buffered)
    ensures var whole := Walk(heap, root, 0, {}, 0);
            && facts <= whole.events
            && (out.Completed? ==> facts == whole.events && Told(heap, root, facts) && (cyclic <==> Reported(facts)))
            && (account.ample ==> (out.TooDeep? <==> 0 < maxDepth < Peak(whole.events, 0)) && !out.Stopped?)
  {
    hide Told;
    hide Walk;
    hide Peak;
    hide Reported;
    var charged := account.Charge(Buffered, WALKER_BYTES);
    if !charged {
      return Stopped, [], false;
    }
    var walker := new ModelWalker(account, heap, maxDepth, root);
    out := walker.Run(root);
    facts, cyclic := walker.sink, walker.hasCycle;
    walker.Release(walker.retained);
  }

  /** Noting a problem moves nothing. */
  lemma RestNoted(frame: Frame, problem: Problem)
    requires frame.Valid()
    ensures var noted := frame.(hole := true, problems := Report(frame.problems, problem));
            noted.Valid() && noted.Rest() == frame.Rest()
  {
  }

  lemma EndRest(frame: Frame)
    requires frame.Valid() && frame.field >= |frame.node.fields|
    ensures frame.Rest() == []
  {
  }

  lemma StartRecord()
    ensures Replay([], []) == Open(Ids([])) && Peak([], 0) == 0 && Pointers([]) == {} && Parent(Ids([])) == 0
    ensures StackValid([])
  {
  }

  lemma EndPending(heap: Heap, next: NodeId)
    ensures Pending(heap, [], next) == Trace([], next) && !Noted([])
  {
  }

  lemma SingleFrame(heap: Heap, root: Value)
    ensures var frame := NewFrame(heap, root, 1);
            frame.Valid() && StackValid([frame]) && Pointers([frame]) == Entered(root)
  {
    var frame := NewFrame(heap, root, 1);
    NewFrameValid(heap, root, 1);
    hide Frame.Valid;
    hide Target;
    hide StackValid;
    StartRecord();
    StackValidPush([], frame);
    assert [] + [frame] == [frame];
  }

  lemma NewFrameValid(heap: Heap, value: Value, id: NodeId)
    ensures NewFrame(heap, value, id).Valid()
  {
  }

  /** The traversal of the root is its opening followed by what its frame stands for. */
  lemma StartPending(heap: Heap, root: Value)
    ensures var frame := NewFrame(heap, root, 1);
            && frame.Valid() && StackValid([frame]) && Pointers([frame]) == Entered(root)
            && var rest := Pending(heap, [frame], 1);
            && Walk(heap, root, 0, {}, 0) == rest.(events := Opening(1, 0, frame.node.name) + rest.events)
            && Walk(heap, root, 0, {}, 0).events[2..] == rest.events
  {
    hide Pointers;
    hide StackValid;
    hide Target;
    hide WalkAll;
    hide Walk;
    hide Pending;
    hide Entries;
    var frame := NewFrame(heap, root, 1);
    SingleFrame(heap, root);
    assert {} + Entered(root) == Entered(root);
    FieldRest(frame);
    assert frame.node.fields[0..] == frame.node.fields;
    WalkUnfold(heap, root, 0, {}, 0);
    PendingUnfold(heap, [frame], 1);
    EndPending(heap, WalkAll(heap, frame.Rest(), 1, Entered(root), 1, []).next);
    var kids := WalkAll(heap, frame.Rest(), 1, Entered(root), 1, []);
    assert [frame][..0] == [];
    assert kids.events + Closing(1, kids.problems) + [] == kids.events + Closing(1, kids.problems);
    assert Opening(1, 0, frame.node.name) + kids.events + Closing(1, kids.problems)
        == Opening(1, 0, frame.node.name) + (kids.events + Closing(1, kids.problems));
  }

  /** The rounds left became fewer, or the top cursor moved on. */
  ghost predicate Sooner(heap: Heap, now: seq<Frame>, before: seq<Frame>)
    requires StackValid(now) && StackValid(before)
  {
    || StackWork(heap, now) < StackWork(heap, before)
    || (StackWork(heap, now) == StackWork(heap, before) && FieldsLeft(now) < FieldsLeft(before))
  }

  ghost function FieldsLeft(stack: seq<Frame>): nat
    requires StackValid(stack)
  {
    if stack == [] then 0 else |stack[|stack| - 1].node.fields| - stack[|stack| - 1].field
  }

  lemma TopValid(stack: seq<Frame>)
    requires StackValid(stack) && stack != []
    ensures stack[|stack| - 1].Valid()
  {
  }

  lemma FieldsFewer(stack: seq<Frame>, top: Frame)
    requires StackValid(stack) && stack != [] && top.node == stack[|stack| - 1].node && top.field > stack[|stack| - 1].field
    requires StackValid(WithTop(stack, top))
    ensures FieldsLeft(WithTop(stack, top)) < FieldsLeft(stack)
  {
  }

  /** Moving the cursor over the end of a field changes nothing that is to come. */
  lemma SameRest(heap: Heap, stack: seq<Frame>, top: Frame, next: NodeId)
    requires StackValid(stack) && stack != [] && top.Valid()
    requires var frame := stack[|stack| - 1];
             top.pointer == frame.pointer && top.id == frame.id && top.problems == frame.problems && top.Rest() == frame.Rest()
    ensures StackValid(WithTop(stack, top)) && Pointers(WithTop(stack, top)) == Pointers(stack)
    ensures Pending(heap, WithTop(stack, top), next) == Pending(heap, stack, next)
    ensures StackWork(heap, WithTop(stack, top)) == StackWork(heap, stack)
  {
    hide WalkAll;
    hide Work;
    hide Frame.Rest;
    StackValidTop(stack, top);
  }

  /** If the nesting cap refuses a node, the whole traversal is deeper than the cap. */
  lemma TooDeepPeak(sink: seq<Event>, stack: seq<Frame>, opening: seq<Event>, rest: seq<Event>)
    requires Replay(sink, []) == Open(Ids(stack)) && opening != [] && opening[0].OpenNode?
    ensures Peak(sink + opening + rest, 0) > |stack|
  {
    PeakAppend(sink, opening[0], [], Ids(stack));
    assert sink + opening + rest == (sink + [opening[0]]) + (opening[1..] + rest);
    PeakPrefix(sink + [opening[0]], opening[1..] + rest, 0);
  }

  lemma EnterRecord(sink: seq<Event>, stack: seq<Frame>, frame: Frame, parent: NodeId)
    requires Replay(sink, []) == Open(Ids(stack)) && parent == Parent(Ids(stack))
    ensures var sink' := sink + Opening(frame.id, parent, frame.node.name);
            && Replay(sink', []) == Open(Ids(stack + [frame]))
            && Peak(sink', 0) == if Peak(sink, 0) > |stack| + 1 then Peak(sink, 0) else |stack| + 1
  {
    var open, done := OpenNode(frame.id, parent, frame.node.name), CompleteAttributes(frame.id);
    assert Ids(stack + [frame]) == Ids(stack) + [frame.id];
    ReplayConcat(sink, [open], []);
    assert [open][1..] == [] && [done][1..] == [];
    ReplayConcat(sink + [open], [done], []);
    PeakAppend(sink, open, [], Ids(stack));
    PeakAppend(sink + [open], done, [], Ids(stack) + [frame.id]);
    assert sink + [open] + [done] == sink + Opening(frame.id, parent, frame.node.name);
  }

  lemma LeaveRecord(sink: seq<Event>, stack: seq<Frame>)
    requires Replay(sink, []) == Open(Ids(stack)) && stack != []
    ensures var top := stack[|stack| - 1];
            var sink' := sink + Closing(top.id, top.problems);
            Replay(sink', []) == Open(Ids(stack[..|stack| - 1])) && Peak(sink', 0) == Peak(sink, 0)
  {
    var top := stack[|stack| - 1];
    var first, last := Representation(top.id, top.problems), CloseNode(top.id, top.problems == []);
    assert Ids(stack[..|stack| - 1]) == Ids(stack)[..|stack| - 1];
    assert [first][1..] == [] && [last][1..] == [];
    ReplayConcat(sink, [first], []);
    ReplayConcat(sink + [first], [last], []);
    PeakAppend(sink, first, [], Ids(stack));
    PeakAppend(sink + [first], last, [], Ids(stack));
    PeakReached(sink, [], Ids(stack));
    assert sink + [first] + [last] == sink + Closing(top.id, top.problems);
  }

  /** What is open at the end was counted. */
  lemma {:induction false} PeakReached(events: seq<Event>, nodes: seq<NodeId>, nodes': seq<NodeId>)
    requires Replay(events, nodes) == Open(nodes')
    ensures Peak(events, |nodes|) >= |nodes'|
    decreases |events|
  {
    if events != [] {
      PeakReached(events[1..], ReplayOne(events[0], nodes).nodes, nodes');
    }
  }
}
