/**
 The entities that OperationQueue.addOperation works on, as values.

 An operation is identified by an `OpId` (object identity in the source). The
 submitted operation carries everything that addOperation reads from it: its
 conditions, its direct dependencies, the indirect dependencies its conditions
 need, and the condition evaluator that `evaluateConditions()` hands back. The
 last two are other operations, nested structurally, because the queue submits
 them through the same pipeline.
 */
module OperationTypes {

  type OpId = nat

  /** An exclusivity category: the string a mutually exclusive condition is registered under. */
  type Category = string

  /** An error reported when an operation finishes (opaque to the queue). */
  type Error = string

  datatype Option<T> = None | Some(value: T)

  /** A condition attached to an operation; only its exclusivity flag and category matter here. */
  datatype Condition = Condition(mutuallyExclusive: bool, category: Category)

  /**
   An operation handed to the queue.
   - `Plain` is an NSOperation that is not an Operation: it gets no observers,
     no condition processing, only a completion block.
   - `Operation` is an Operation (a GroupOperation when `isGroup`). `evaluator`
     is the operation `evaluateConditions()` returns; it is consulted only when
     `conditions` is non-empty, as the source calls that method only then.
   Ids stand for object identity. A value in which a nested operation reuses
   the id of an enclosing one describes no object of the source: there that
   nested operation would be the enclosing one itself, submitted without end.
   */
  datatype Op =
    | Plain(id: OpId)
    | Operation(
        id: OpId,
        isGroup: bool,
        conditions: seq<Condition>,
        directDependencies: set<OpId>,
        indirectDependencies: seq<Op>,
        evaluator: Op)

  /** A dependency edge (dependent, prerequisite): the first may start only after the second finished. */
  type Edge = (OpId, OpId)

  /** The three observers addOperation attaches to every Operation. */
  datatype Observer = ProducedOperationObserver | WillFinishObserver | DidFinishObserver

  /** What the queue does that can be observed, in the order it does it. */
  datatype Event =
    | ObserverAdded(op: OpId, observer: Observer)
    | CompletionBlockAdded(op: OpId)
    | WillEnqueue(op: OpId)
    | DelegateWillAdd(op: OpId)
    | Admitted(op: OpId)
    | AppendedToGroup(group: OpId, op: OpId)
    | DependenciesAdded(op: OpId, prerequisites: set<OpId>)
    | DelegateWillFinish(op: OpId, errors: seq<Error>)
    | DelegateDidFinish(op: OpId, errors: seq<Error>)

  /**
   The state a submission changes: the exclusivity registry (category to latest
   holder), the dependency edges added so far (the operations' dependency
   lists), and the trace of events, which also records each call that added
   dependencies, in order.
   */
  datatype State = State(holders: map<Category, OpId>, edges: set<Edge>, trace: seq<Event>)

  /** The ids of the operations admitted to the underlying queue, in admission order. */
  function Admissions(trace: seq<Event>): seq<OpId>
  {
    if trace == [] then []
    else (if trace[0].Admitted? then [trace[0].op] else []) + Admissions(trace[1..])
  }

  lemma {:induction false} AdmissionsAppend(a: seq<Event>, b: seq<Event>)
    ensures Admissions(a + b) == Admissions(a) + Admissions(b)
  {
    if a == [] {
      assert a + b == b;
    } else {
      assert (a + b)[0] == a[0];
      assert (a + b)[1..] == a[1..] + b;
      AdmissionsAppend(a[1..], b);
    }
  }

  /** The observers attached to operation `id`, in attachment order. */
  function ObserversOf(trace: seq<Event>, id: OpId): seq<Observer>
  {
    if trace == [] then []
    else
      (if trace[0].ObserverAdded? && trace[0].op == id then [trace[0].observer] else [])
      + ObserversOf(trace[1..], id)
  }

  lemma {:induction false} ObserversOfAppend(a: seq<Event>, b: seq<Event>, id: OpId)
    ensures ObserversOf(a + b, id) == ObserversOf(a, id) + ObserversOf(b, id)
  {
    if a == [] {
      assert a + b == b;
    } else {
      var head := if a[0].ObserverAdded? && a[0].op == id then [a[0].observer] else [];
      assert (a + b)[0] == a[0];
      assert (a + b)[1..] == a[1..] + b;
      assert ObserversOf(a + b, id) == head + ObserversOf(a[1..] + b, id);
      ObserversOfAppend(a[1..], b, id);
      assert ObserversOf(a, id) == head + ObserversOf(a[1..], id);
    }
  }

  lemma {:induction false} AdmissionsNone(trace: seq<Event>)
    requires forall k :: 0 <= k < |trace| ==> !trace[k].Admitted?
    ensures Admissions(trace) == []
  {
    if trace != [] {
      AdmissionsNone(trace[1..]);
    }
  }

  /** The edges the `DependenciesAdded` events of `trace` add. */
  function EdgesOf(trace: seq<Event>): set<Edge>
  {
    if trace == [] then {}
    else
      (if trace[0].DependenciesAdded? then set p | p in trace[0].prerequisites :: (trace[0].op, p) else {})
      + EdgesOf(trace[1..])
  }

  lemma {:induction false} EdgesOfAppend(a: seq<Event>, b: seq<Event>)
    ensures EdgesOf(a + b) == EdgesOf(a) + EdgesOf(b)
  {
    if a == [] {
      assert a + b == b;
    } else {
      assert (a + b)[0] == a[0];
      assert (a + b)[1..] == a[1..] + b;
      EdgesOfAppend(a[1..], b);
    }
  }

  lemma {:induction false} EdgesOfNone(trace: seq<Event>)
    requires forall e :: e in trace ==> !e.DependenciesAdded?
    ensures EdgesOf(trace) == {}
  {
    if trace != [] {
      EdgesOfNone(trace[1..]);
    }
  }

  /** Each edge of `EdgesOf(trace)` comes from one `DependenciesAdded` event of `trace`. */
  lemma {:induction false} EdgesOfEvent(trace: seq<Event>, a: OpId, b: OpId)
    requires (a, b) in EdgesOf(trace)
    ensures exists i :: 0 <= i < |trace| && trace[i].DependenciesAdded? && trace[i].op == a && b in trace[i].prerequisites
  {
    if trace[0].DependenciesAdded? && trace[0].op == a && b in trace[0].prerequisites {
    } else {
      EdgesOfEvent(trace[1..], a, b);
      var i :| 0 <= i < |trace[1..]| && trace[1..][i].DependenciesAdded? && trace[1..][i].op == a && b in trace[1..][i].prerequisites;
      assert trace[i + 1] == trace[1..][i];
    }
  }

  /** Every event of `events` is about one of `ids`. */
  predicate Concerns(events: seq<Event>, ids: set<OpId>)
  {
    forall e :: e in events ==> e.op in ids
  }

  lemma {:induction false} ObserversOfOthers(trace: seq<Event>, id: OpId)
    requires forall e :: e in trace ==> !e.ObserverAdded? || e.op != id
    ensures ObserversOf(trace, id) == []
  {
    if trace != [] {
      ObserversOfOthers(trace[1..], id);
    }
  }
}
