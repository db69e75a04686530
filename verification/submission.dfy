/**
 What one call of OperationQueue.addOperation does to the queue's observable
 state, as a function: `Submit`. The batch form is `SubmitAll`, the routing of
 an operation produced while another runs is `Produce`.

 The steps follow the source in order: attach three observers; when the
 operation has conditions, register its mutually exclusive categories and
 collect the previous holders, wire every indirect dependency after the
 previous holders and the direct dependencies and the evaluator after every
 indirect dependency, submit the indirect dependencies, then the evaluator;
 signal willEnqueue; tell the delegate (if any) willAdd; admit the operation.
 */
module Submission {
  import opened OperationTypes
  import opened Exclusivity

  /** The three observers every Operation gets, in attachment order. */
  function ObserverEvents(id: OpId): seq<Event>
  {
    [ObserverAdded(id, ProducedOperationObserver),
     ObserverAdded(id, WillFinishObserver),
     ObserverAdded(id, DidFinishObserver)]
  }

  /** The edges added for one indirect dependency `dependency`. */
  function DependencyEdges(dependency: OpId, previous: set<OpId>, direct: set<OpId>, evaluator: OpId): set<Edge>
  {
    (set p | p in previous :: (dependency, p))
    + (set d | d in direct :: (dependency, d))
    + {(evaluator, dependency)}
  }

  /** The edges added for the indirect dependencies `indirect`, one after the other. */
  function Wiring(indirect: seq<Op>, previous: set<OpId>, direct: set<OpId>, evaluator: OpId): (r: set<Edge>)
    ensures forall i :: 0 <= i < |indirect| ==> (evaluator, indirect[i].id) in r
    decreases |indirect|
  {
    if indirect == [] then {}
    else
      Wiring(indirect[..|indirect| - 1], previous, direct, evaluator)
      + DependencyEdges(indirect[|indirect| - 1].id, previous, direct, evaluator)
  }

  /**
   The calls that add the edges of `Wiring`, in the order they are made: for
   each indirect dependency in turn, its previous holders, its direct
   dependencies, then the evaluator's dependency on it.
   */
  function WiringEvents(indirect: seq<Op>, previous: set<OpId>, direct: set<OpId>, evaluator: OpId): (r: seq<Event>)
    ensures |r| == 3 * |indirect|
    decreases |indirect|
  {
    if indirect == [] then []
    else
      var dependency := indirect[|indirect| - 1].id;
      WiringEvents(indirect[..|indirect| - 1], previous, direct, evaluator)
      + [DependenciesAdded(dependency, previous), DependenciesAdded(dependency, direct), DependenciesAdded(evaluator, {dependency})]
  }

  /** The previous holders an Operation collects when it registers its exclusive categories in `s`. */
  function PreviousHolders(s: State, op: Op): set<OpId>
    requires op.Operation?
  {
    Register(s.holders, {}, op.id, MutuallyExclusive(op.conditions)).1
  }

  /** The last two steps of every submission: the delegate's willAdd (when there is a delegate), then admission. */
  function Admit(s: State, id: OpId, delegate: bool): (r: State)
    ensures r.holders == s.holders && r.edges == s.edges && s.trace <= r.trace
    ensures |r.trace| > |s.trace| && r.trace[|r.trace| - 1] == Admitted(id)
  {
    s.(trace := s.trace + (if delegate then [DelegateWillAdd(id)] else []) + [Admitted(id)])
  }

  /**
   The state after submitting `op` in state `s`; `delegate` says whether the
   queue has a delegate. The result only extends the trace and the edge set.
   */
  function Submit(s: State, op: Op, delegate: bool): (r: State)
    ensures s.trace <= r.trace && s.edges <= r.edges
    ensures |r.trace| > |s.trace| && r.trace[|r.trace| - 1] == Admitted(op.id)
    decreases op, 2
  {
    match op
    case Plain(id) =>
      Admit(s.(trace := s.trace + [CompletionBlockAdded(id)]), id, delegate)
    case Operation(id, _, _, _, _, _) =>
      var prepared := Prepare(s, op, delegate);
      Admit(prepared.(trace := prepared.trace + [WillEnqueue(id)]), id, delegate)
  }

  /**
   What addOperation does to an Operation before signalling willEnqueue:
   attach the three observers, then process the conditions if there are any.
   */
  function Prepare(s: State, op: Op, delegate: bool): (r: State)
    requires op.Operation?
    ensures s.trace + ObserverEvents(op.id) <= r.trace && s.edges <= r.edges
    decreases op, 1
  {
    var observed := s.(trace := s.trace + ObserverEvents(op.id));
    if |op.conditions| == 0 then observed else Gate(observed, op, delegate)
  }

  /**
   The condition processing of an Operation with conditions: registration of
   its exclusive categories, the dependency wiring and submission of its
   indirect dependencies, then submission of its evaluator.
   */
  function Gate(s: State, op: Op, delegate: bool): (r: State)
    requires op.Operation?
    ensures s.trace <= r.trace && s.edges <= r.edges
    decreases op, 0
  {
    var registered := Register(s.holders, {}, op.id, MutuallyExclusive(op.conditions));
    var exclusive := s.(holders := registered.0);
    var dependenciesAdded :=
      if |op.indirectDependencies| == 0 then exclusive
      else SubmitAll(Wire(exclusive, op, registered.1), op.indirectDependencies, delegate);
    Submit(dependenciesAdded, op.evaluator, delegate)
  }

  /**
   The dependency wiring of an Operation whose previous holders are `previous`:
   the edges are added and the calls that add them recorded.
   */
  function Wire(s: State, op: Op, previous: set<OpId>): (r: State)
    requires op.Operation?
    ensures s.trace <= r.trace && s.edges <= r.edges
  {
    var indirect := op.indirectDependencies;
    var evaluator := op.evaluator.id;
    s.(edges := s.edges + Wiring(indirect, previous, op.directDependencies, evaluator),
       trace := s.trace + WiringEvents(indirect, previous, op.directDependencies, evaluator))
  }

  /** The state after submitting each of `ops` in turn. */
  function SubmitAll(s: State, ops: seq<Op>, delegate: bool): (r: State)
    ensures s.trace <= r.trace && s.edges <= r.edges
    decreases ops
  {
    if ops == [] then s
    else SubmitAll(Submit(s, ops[0], delegate), ops[1..], delegate)
  }

  /**
   What the produced-operation observer of `producer` does with `produced`: a
   group appends it to itself, any other producer hands it back to the queue.
   Only an Operation carries that observer.
   */
  function Produce(s: State, producer: Op, produced: Op, delegate: bool): (r: State)
    requires producer.Operation?
    ensures s.trace <= r.trace && s.edges <= r.edges && |r.trace| > |s.trace|
    ensures producer.isGroup ==> r.holders == s.holders && r.edges == s.edges
    ensures r.trace[|r.trace| - 1]
      == if producer.isGroup then AppendedToGroup(producer.id, produced.id) else Admitted(produced.id)
  {
    if producer.isGroup then
      s.(trace := s.trace + [AppendedToGroup(producer.id, produced.id)])
    else
      Submit(s, produced, delegate)
  }

  // Reference definitions, independent of the state, for the lemmas.

  /** The operations admitted by submitting `op`, in admission order. */
  function AdmissionOrder(op: Op): seq<OpId>
    decreases op
  {
    match op
    case Plain(id) => [id]
    case Operation(id, _, conditions, _, indirect, evaluator) =>
      (if |conditions| == 0 then [] else AdmissionOrderAll(indirect) + AdmissionOrder(evaluator)) + [id]
  }

  function AdmissionOrderAll(ops: seq<Op>): seq<OpId>
    decreases ops
  {
    if ops == [] then [] else AdmissionOrder(ops[0]) + AdmissionOrderAll(ops[1..])
  }

  /** Every operation a submission of `op` may reach: itself, its indirect dependencies, its evaluator. */
  function Ids(op: Op): set<OpId>
    decreases op, 1
  {
    {op.id} + NestedIds(op)
  }

  /**
   The operations a submission of `op` reaches other than `op` itself: none
   without conditions, since the indirect dependencies and the evaluator are
   then never consulted.
   */
  function NestedIds(op: Op): set<OpId>
    decreases op, 0
  {
    match op
    case Plain(_) => {}
    case Operation(_, _, conditions, _, indirect, evaluator) =>
      if |conditions| == 0 then {} else IdsAll(indirect) + Ids(evaluator)
  }

  /** The operations consulted when `op` has conditions: its indirect dependencies and its evaluator, transitively. */
  function ConditionIds(op: Op): set<OpId>
    requires op.Operation?
  {
    IdsAll(op.indirectDependencies) + Ids(op.evaluator)
  }

  function IdsAll(ops: seq<Op>): set<OpId>
    decreases ops
  {
    if ops == [] then {} else Ids(ops[0]) + IdsAll(ops[1..])
  }

  /** The categories a submission of `op` registers, its own and those of what it submits in turn. */
  function Categories(op: Op): set<Category>
    decreases op, 1
  {
    match op
    case Plain(_) => {}
    case Operation(_, _, conditions, _, indirect, evaluator) =>
      if |conditions| == 0 then {}
      else CategorySet(MutuallyExclusive(conditions)) + NestedCategories(op)
  }

  /** The categories registered by what a submission of `op` submits in turn. */
  function NestedCategories(op: Op): set<Category>
    decreases op, 0
  {
    match op
    case Plain(_) => {}
    case Operation(_, _, conditions, _, indirect, evaluator) =>
      if |conditions| == 0 then {} else CategoriesAll(indirect) + Categories(evaluator)
  }

  function CategoriesAll(ops: seq<Op>): set<Category>
    decreases ops
  {
    if ops == [] then {} else Categories(ops[0]) + CategoriesAll(ops[1..])
  }

  /** A submission of `op` adds no edges: it has no conditions, or no indirect dependencies and such an evaluator. */
  predicate AddsNoEdges(op: Op)
    decreases op
  {
    match op
    case Plain(_) => true
    case Operation(_, _, conditions, _, indirect, evaluator) =>
      |conditions| == 0 || (|indirect| == 0 && AddsNoEdges(evaluator))
  }
}
