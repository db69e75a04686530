/**
 The OperationQueue: an executor queue whose admission entry point wires up
 observers, exclusivity and condition evaluation before admitting.

 The underlying executor is reduced to the `Admitted` events it receives, the
 dependency edges the queue adds to operations are kept in `edges`, and the
 delegate (held weakly in the source) is reduced to whether there is one.
 */
module Queue {
  import opened OperationTypes
  import opened Exclusivity
  import opened Submission

  class OperationQueue {
    /** Whether the queue has a delegate to inform. */
    var hasDelegate: bool
    /** The dependency edges this queue has added between operations. */
    var edges: set<Edge>
    /** What the queue has done, in order. */
    var trace: seq<Event>
    /** The exclusivity registry shared by every queue. */
    const manager: ExclusivityManager

    /** The queue's state as a value. */
    function Current(): State
      reads this, manager
    {
      State(manager.holders, edges, trace)
    }

    constructor (manager: ExclusivityManager, hasDelegate: bool)
      ensures this.manager == manager && this.hasDelegate == hasDelegate
      ensures edges == {} && trace == []
    {
      this.manager := manager;
      this.hasDelegate := hasDelegate;
      edges := {};
      trace := [];
    }

    /** Submits `op`: everything `Submit` describes, step by step. */
    method AddOperation(op: Op)
      modifies this, manager
      ensures hasDelegate == old(hasDelegate)
      ensures Current() == Submit(old(Current()), op, hasDelegate)
      decreases op, 2
    {
      ghost var s0 := Current();
      match op {
        case Plain(id) =>
          trace := trace + [CompletionBlockAdded(id)];
        case Operation(id, _, conditions, _, _, _) =>
          AttachObservers(id);
          if |conditions| > 0 {
            ProcessConditions(op);
          }
          assert Current() == Prepare(s0, op, hasDelegate);
          trace := trace + [WillEnqueue(id)];
      }
      AdmitOperation(op.id);
    }

    /** The last steps of every submission: the delegate's willAdd, when there is a delegate, then admission. */
    method AdmitOperation(id: OpId)
      modifies this`trace
      ensures trace == Admit(old(Current()), id, hasDelegate).trace
    {
      if hasDelegate {
        trace := trace + [DelegateWillAdd(id)];
      }
      trace := trace + [Admitted(id)];
    }

    /** Attaches the produced-operation, will-finish and did-finish observers to Operation `id`. */
    method AttachObservers(id: OpId)
      modifies this`trace
      ensures trace == old(trace) + ObserverEvents(id)
    {
      trace := trace + [ObserverAdded(id, ProducedOperationObserver)];
      trace := trace + [ObserverAdded(id, WillFinishObserver)];
      trace := trace + [ObserverAdded(id, DidFinishObserver)];
    }

    /** The condition processing of an Operation with conditions, as `Gate` describes it. */
    method ProcessConditions(op: Op)
      requires op.Operation?
      modifies this, manager
      ensures hasDelegate == old(hasDelegate)
      ensures Current() == Gate(old(Current()), op, hasDelegate)
      decreases op, 0
    {
      var previous := RegisterExclusive(op.id, MutuallyExclusive(op.conditions));
      var evaluator := op.evaluator;
      var indirect := op.indirectDependencies;
      if |indirect| > 0 {
        AddDependencies(indirect, previous, op.directDependencies, evaluator.id);
        assert Current() == Wire(old(Current()).(holders := manager.holders), op, previous);
        AddOperationSequence(indirect);
      }
      AddOperation(evaluator);
    }

    /**
     Registers `id` under the category of each of the conditions `exclusive`
     and collects the holders the registry hands back.
     */
    method RegisterExclusive(id: OpId, exclusive: seq<Condition>) returns (previous: set<OpId>)
      modifies manager
      ensures (manager.holders, previous) == Register(old(manager.holders), {}, id, exclusive)
    {
      previous := {};
      ghost var start := manager.holders;
      for i := 0 to |exclusive|
        invariant Register(manager.holders, previous, id, exclusive[i..]) == Register(start, {}, id, exclusive)
      {
        assert exclusive[i..][1..] == exclusive[i + 1..];
        var holder := manager.AddOperation(id, exclusive[i].category);
        if holder.Some? {
          previous := previous + {holder.value};
        }
      }
      assert exclusive[|exclusive|..] == [];
    }

    /**
     Makes every operation of `indirect` depend on each of `previous` and each
     of `direct`, and the evaluator depend on every operation of `indirect`,
     recording each call in the trace.
     */
    method AddDependencies(indirect: seq<Op>, previous: set<OpId>, direct: set<OpId>, evaluator: OpId)
      modifies this`edges, this`trace
      ensures edges == old(edges) + Wiring(indirect, previous, direct, evaluator)
      ensures trace == old(trace) + WiringEvents(indirect, previous, direct, evaluator)
    {
      for i := 0 to |indirect|
        invariant edges == old(edges) + Wiring(indirect[..i], previous, direct, evaluator)
        invariant trace == old(trace) + WiringEvents(indirect[..i], previous, direct, evaluator)
      {
        assert indirect[..i + 1][..i] == indirect[..i];
        AddDependenciesOf(indirect[i].id, previous, direct, evaluator);
      }
      assert indirect[..|indirect|] == indirect;
    }

    /**
     The three calls for one indirect dependency: it depends on each of
     `previous`, then on each of `direct`, then the evaluator depends on it.
     */
    method AddDependenciesOf(dependency: OpId, previous: set<OpId>, direct: set<OpId>, evaluator: OpId)
      modifies this`edges, this`trace
      ensures edges == old(edges) + DependencyEdges(dependency, previous, direct, evaluator)
      ensures trace == old(trace)
        + [DependenciesAdded(dependency, previous), DependenciesAdded(dependency, direct), DependenciesAdded(evaluator, {dependency})]
    {
      edges := edges + (set p | p in previous :: (dependency, p));
      trace := trace + [DependenciesAdded(dependency, previous)];
      edges := edges + (set d | d in direct :: (dependency, d));
      trace := trace + [DependenciesAdded(dependency, direct)];
      edges := edges + {(evaluator, dependency)};
      trace := trace + [DependenciesAdded(evaluator, {dependency})];
    }

    /** Submits each of `ops` in turn; the wait flag is ignored. */
    method AddOperations(ops: seq<Op>, waitUntilFinished: bool)
      modifies this, manager
      ensures hasDelegate == old(hasDelegate)
      ensures Current() == SubmitAll(old(Current()), ops, hasDelegate)
      decreases ops, 0
    {
      ghost var start := Current();
      for i := 0 to |ops|
        invariant hasDelegate == old(hasDelegate)
        invariant SubmitAll(Current(), ops[i..], hasDelegate) == SubmitAll(start, ops, hasDelegate)
      {
        assert ops[i..][1..] == ops[i + 1..];
        AddOperation(ops[i]);
      }
    }

    /** Submits a sequence of operations without waiting. */
    method AddOperationSequence(ops: seq<Op>)
      modifies this, manager
      ensures hasDelegate == old(hasDelegate)
      ensures Current() == SubmitAll(old(Current()), ops, hasDelegate)
      decreases ops, 1
    {
      AddOperations(ops, false);
    }

    /** Submits the operations given as a variadic argument list. */
    method AddOperationList(ops: seq<Op>)
      modifies this, manager
      ensures hasDelegate == old(hasDelegate)
      ensures Current() == SubmitAll(old(Current()), ops, hasDelegate)
      decreases ops, 2
    {
      AddOperationSequence(ops);
    }

    /** The produced-operation observer of Operation `producer` receiving `produced`. */
    method ProducedOperation(producer: Op, produced: Op)
      requires producer.Operation?
      modifies this, manager
      ensures hasDelegate == old(hasDelegate)
      ensures Current() == Produce(old(Current()), producer, produced, hasDelegate)
    {
      if producer.isGroup {
        trace := trace + [AppendedToGroup(producer.id, produced.id)];
      } else {
        AddOperation(produced);
      }
    }

    /** The will-finish observer of operation `id` firing with `errors`. */
    method OperationWillFinish(id: OpId, errors: seq<Error>)
      modifies this`trace
      ensures trace == old(trace) + if hasDelegate then [DelegateWillFinish(id, errors)] else []
    {
      if hasDelegate {
        trace := trace + [DelegateWillFinish(id, errors)];
      }
    }

    /** The did-finish observer of operation `id` firing with `errors`. */
    method OperationDidFinish(id: OpId, errors: seq<Error>)
      modifies this`trace
      ensures trace == old(trace) + if hasDelegate then [DelegateDidFinish(id, errors)] else []
    {
      if hasDelegate {
        trace := trace + [DelegateDidFinish(id, errors)];
      }
    }

    /** The completion block of a plain operation `id` running: did-finish with no errors. */
    method CompletionBlockRan(id: OpId)
      modifies this`trace
      ensures trace == old(trace) + if hasDelegate then [DelegateDidFinish(id, [])] else []
    {
      if hasDelegate {
        trace := trace + [DelegateDidFinish(id, [])];
      }
    }
  }
}
