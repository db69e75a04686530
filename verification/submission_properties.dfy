/**
 What a submission guarantees, and what it does not, proved about `Submit`.

 Each group below follows one step of OperationQueue.addOperation: the
 observers, the registry, the dependency wiring, the admission order, the
 batch form and the routing of produced operations.
 */
module SubmissionProperties {
  import opened OperationTypes
  import opened Exclusivity
  import opened Submission

  // ----- Batch submission -----

  lemma {:induction false} SubmitAllConcat(s: State, a: seq<Op>, b: seq<Op>, delegate: bool)
    ensures SubmitAll(s, a + b, delegate) == SubmitAll(SubmitAll(s, a, delegate), b, delegate)
    decreases |a|
  {
    if a != [] {
      assert (a + b)[0] == a[0];
      assert (a + b)[1..] == a[1..] + b;
      SubmitAllConcat(Submit(s, a[0], delegate), a[1..], b, delegate);
    } else {
      assert a + b == b;
    }
  }

  /** Submitting a batch is submitting its first operations, then the last one. */
  lemma BatchIsSuccessiveSubmission(s: State, ops: seq<Op>, op: Op, delegate: bool)
    ensures SubmitAll(s, ops + [op], delegate) == Submit(SubmitAll(s, ops, delegate), op, delegate)
  {
    SubmitAllConcat(s, ops, [op], delegate);
  }

  // ----- Recorded dependency calls -----

  /** Every recorded wiring call adds dependencies to an indirect dependency or to the evaluator. */
  lemma {:induction false} WiringEventsAbout(indirect: seq<Op>, previous: set<OpId>, direct: set<OpId>, evaluator: OpId)
    ensures forall e :: e in WiringEvents(indirect, previous, direct, evaluator) ==>
      e.DependenciesAdded? && (e.op == evaluator || exists o :: o in indirect && e.op == o.id)
    decreases |indirect|
  {
    if indirect != [] {
      var front := indirect[..|indirect| - 1];
      WiringEventsAbout(front, previous, direct, evaluator);
      forall o | o in front
        ensures o in indirect
      {
      }
    }
  }

  /** The recorded wiring calls add exactly the edges of `Wiring`. */
  lemma {:induction false} WiringRecorded(indirect: seq<Op>, previous: set<OpId>, direct: set<OpId>, evaluator: OpId)
    ensures EdgesOf(WiringEvents(indirect, previous, direct, evaluator)) == Wiring(indirect, previous, direct, evaluator)
    decreases |indirect|
  {
    if indirect != [] {
      var front := indirect[..|indirect| - 1];
      var dependency := indirect[|indirect| - 1].id;
      var calls := [DependenciesAdded(dependency, previous), DependenciesAdded(dependency, direct), DependenciesAdded(evaluator, {dependency})];
      WiringRecorded(front, previous, direct, evaluator);
      EdgesOfAppend(WiringEvents(front, previous, direct, evaluator), calls);
      var last := calls[1..][1..];
      assert last == [DependenciesAdded(evaluator, {dependency})] && last[1..] == [];
      assert EdgesOf(last) == {(evaluator, dependency)};
      assert EdgesOf(calls[1..]) == (set d | d in direct :: (dependency, d)) + {(evaluator, dependency)};
      assert EdgesOf(calls) == DependencyEdges(dependency, previous, direct, evaluator);
    }
  }

  // ----- Admission order -----

  lemma {:induction false} SubmitAdmits(s: State, op: Op, delegate: bool)
    ensures Admissions(Submit(s, op, delegate).trace) == Admissions(s.trace) + AdmissionOrder(op)
    decreases op, 2
  {
    match op
    case Plain(id) =>
      NoAdmissionAppended(s.trace, [CompletionBlockAdded(id)]);
      AdmitAdmits(s.(trace := s.trace + [CompletionBlockAdded(id)]), id, delegate);
    case Operation(id, _, _, _, _, _) =>
      var prepared := Prepare(s, op, delegate);
      PrepareAdmits(s, op, delegate);
      NoAdmissionAppended(prepared.trace, [WillEnqueue(id)]);
      AdmitAdmits(prepared.(trace := prepared.trace + [WillEnqueue(id)]), id, delegate);
  }

  lemma NoAdmissionAppended(trace: seq<Event>, events: seq<Event>)
    requires forall e :: e in events ==> !e.Admitted?
    ensures Admissions(trace + events) == Admissions(trace)
  {
    AdmissionsAppend(trace, events);
    AdmissionsNone(events);
  }

  /** The last steps of a submission admit exactly the submitted operation. */
  lemma AdmitAdmits(s: State, id: OpId, delegate: bool)
    ensures Admissions(Admit(s, id, delegate).trace) == Admissions(s.trace) + [id]
  {
    var willAdd := if delegate then [DelegateWillAdd(id)] else [];
    NoAdmissionAppended(s.trace, willAdd);
    AdmissionsAppend(s.trace + willAdd, [Admitted(id)]);
  }

  lemma {:induction false} PrepareAdmits(s: State, op: Op, delegate: bool)
    requires op.Operation?
    ensures Admissions(Prepare(s, op, delegate).trace)
         == Admissions(s.trace)
            + (if |op.conditions| == 0 then [] else AdmissionOrderAll(op.indirectDependencies) + AdmissionOrder(op.evaluator))
    decreases op, 1
  {
    var observed := s.(trace := s.trace + ObserverEvents(op.id));
    NoAdmissionAppended(s.trace, ObserverEvents(op.id));
    if |op.conditions| > 0 {
      GateAdmits(observed, op, delegate);
    }
  }

  lemma {:induction false} GateAdmits(s: State, op: Op, delegate: bool)
    requires op.Operation?
    ensures Admissions(Gate(s, op, delegate).trace)
         == Admissions(s.trace) + AdmissionOrderAll(op.indirectDependencies) + AdmissionOrder(op.evaluator)
    decreases op, 0
  {
    var registered := Register(s.holders, {}, op.id, MutuallyExclusive(op.conditions));
    var exclusive := s.(holders := registered.0);
    var indirect := op.indirectDependencies;
    var wired := Wire(exclusive, op, registered.1);
    var dependenciesAdded := if |indirect| == 0 then exclusive else SubmitAll(wired, indirect, delegate);
    if |indirect| > 0 {
      WiringEventsAbout(indirect, registered.1, op.directDependencies, op.evaluator.id);
      NoAdmissionAppended(s.trace, WiringEvents(indirect, registered.1, op.directDependencies, op.evaluator.id));
      SubmitAllAdmits(wired, indirect, delegate);
    }
    assert Admissions(dependenciesAdded.trace) == Admissions(s.trace) + AdmissionOrderAll(indirect);
    SubmitAdmits(dependenciesAdded, op.evaluator, delegate);
  }

  lemma {:induction false} SubmitAllAdmits(s: State, ops: seq<Op>, delegate: bool)
    ensures Admissions(SubmitAll(s, ops, delegate).trace) == Admissions(s.trace) + AdmissionOrderAll(ops)
    decreases ops
  {
    if ops != [] {
      var next := Submit(s, ops[0], delegate);
      SubmitAdmits(s, ops[0], delegate);
      SubmitAllAdmits(next, ops[1..], delegate);
      assert SubmitAll(s, ops, delegate) == SubmitAll(next, ops[1..], delegate);
      assert AdmissionOrderAll(ops) == AdmissionOrder(ops[0]) + AdmissionOrderAll(ops[1..]);
    }
  }

  lemma {:induction false} AdmissionOrderAllConcat(a: seq<Op>, b: seq<Op>)
    ensures AdmissionOrderAll(a + b) == AdmissionOrderAll(a) + AdmissionOrderAll(b)
    decreases |a|
  {
    if a == [] {
      assert a + b == b;
    } else {
      assert (a + b)[0] == a[0];
      assert (a + b)[1..] == a[1..] + b;
      AdmissionOrderAllConcat(a[1..], b);
    }
  }

  /** Where the `i`-th of `ops` is itself admitted when `ops` is submitted as a batch. */
  function AdmittedAt(ops: seq<Op>, i: nat): int
    requires i < |ops|
  {
    |AdmissionOrderAll(ops[..i + 1])| - 1
  }

  lemma AdmittedAtIsOwnAdmission(ops: seq<Op>, i: nat)
    requires i < |ops|
    ensures 0 <= AdmittedAt(ops, i) < |AdmissionOrderAll(ops)|
    ensures AdmissionOrderAll(ops)[AdmittedAt(ops, i)] == ops[i].id
  {
    var upTo := ops[..i + 1];
    assert ops == upTo + ops[i + 1..];
    AdmissionOrderAllConcat(upTo, ops[i + 1..]);
    assert upTo == ops[..i] + [ops[i]];
    AdmissionOrderAllConcat(ops[..i], [ops[i]]);
    assert [ops[i]][1..] == [];
    assert AdmissionOrderAll([ops[i]]) == AdmissionOrder(ops[i]);
    AdmissionOrderEndsWithOperation(ops[i]);
    var own := AdmissionOrderAll(upTo);
    assert own == AdmissionOrderAll(ops[..i]) + AdmissionOrder(ops[i]);
    assert own[|own| - 1] == ops[i].id;
    assert AdmissionOrderAll(ops) == own + AdmissionOrderAll(ops[i + 1..]);
  }

  lemma AdmittedAtIncreases(ops: seq<Op>, i: nat, j: nat)
    requires i < j < |ops|
    ensures AdmittedAt(ops, i) < AdmittedAt(ops, j)
  {
    assert ops[..j + 1] == ops[..i + 1] + ops[i + 1..j + 1];
    AdmissionOrderAllConcat(ops[..i + 1], ops[i + 1..j + 1]);
    var later := ops[i + 1..j + 1];
    assert later[0] == ops[i + 1];
    assert |AdmissionOrderAll(later)| >= |AdmissionOrder(later[0])| > 0;
  }

  /**
   Within one submission of an Operation with conditions, each indirect
   dependency is admitted in array order, then the evaluator, then the
   operation itself, whatever the state and the delegate.
   */
  lemma AdmissionOrderOfSubmission(s: State, op: Op, delegate: bool)
    requires op.Operation? && |op.conditions| > 0
    ensures var admitted := Admissions(Submit(s, op, delegate).trace);
      var n := |admitted|;
      var base := |Admissions(s.trace)|;
      var indirect := op.indirectDependencies;
      && n >= base + 2
      && admitted[n - 1] == op.id
      && admitted[n - 2] == op.evaluator.id
      && (forall i :: 0 <= i < |indirect| ==>
            base <= base + AdmittedAt(indirect, i) < n - 2 && admitted[base + AdmittedAt(indirect, i)] == indirect[i].id)
      && (forall i, j :: 0 <= i < j < |indirect| ==> AdmittedAt(indirect, i) < AdmittedAt(indirect, j))
  {
    SubmitAdmits(s, op, delegate);
    var indirect := op.indirectDependencies;
    var order := AdmissionOrderAll(indirect);
    var evaluatorOrder := AdmissionOrder(op.evaluator);
    assert evaluatorOrder[|evaluatorOrder| - 1] == op.evaluator.id by {
      match op.evaluator
      case Plain(_) =>
      case Operation(_, _, _, _, _, _) =>
    }
    assert AdmissionOrder(op) == order + evaluatorOrder + [op.id];
    forall i | 0 <= i < |indirect|
      ensures 0 <= AdmittedAt(indirect, i) < |order|
      ensures order[AdmittedAt(indirect, i)] == indirect[i].id
    {
      AdmittedAtIsOwnAdmission(indirect, i);
    }
    forall i, j | 0 <= i < j < |indirect|
      ensures AdmittedAt(indirect, i) < AdmittedAt(indirect, j)
    {
      AdmittedAtIncreases(indirect, i, j);
    }
  }

  /** willEnqueue, then the delegate's willAdd when there is a delegate, then admission: the last steps. */
  lemma LastStepsOfSubmission(s: State, op: Op, delegate: bool)
    requires op.Operation?
    ensures var r := Submit(s, op, delegate).trace;
      var tail := [WillEnqueue(op.id)] + (if delegate then [DelegateWillAdd(op.id)] else []) + [Admitted(op.id)];
      |r| >= |s.trace| + 3 + |tail| && r[|r| - |tail|..] == tail
  {
  }

  // ----- Dependency calls and admission -----

  /** The edges of a stretch of events split at any point in between. */
  lemma EdgesOfJoin(t: seq<Event>, u: seq<Event>, v: seq<Event>)
    requires t <= u <= v
    ensures EdgesOf(v[|t|..]) == EdgesOf(u[|t|..]) + EdgesOf(v[|u|..])
  {
    assert v[|t|..] == u[|t|..] + v[|u|..];
    EdgesOfAppend(u[|t|..], v[|u|..]);
  }

  /** `r` extends the trace of `s`, and its edges are those of `s` plus the edges of the calls recorded since. */
  predicate RecordsEdges(s: State, r: State)
  {
    s.trace <= r.trace && r.edges == s.edges + EdgesOf(r.trace[|s.trace|..])
  }

  lemma RecordsEdgesTrans(s: State, m: State, r: State)
    requires RecordsEdges(s, m) && RecordsEdges(m, r)
    ensures RecordsEdges(s, r)
  {
    EdgesOfJoin(s.trace, m.trace, r.trace);
  }

  /** Recording events that add no dependency, and adding no edge, records edges faithfully. */
  lemma RecordsNoEdges(s: State, events: seq<Event>)
    requires forall e :: e in events ==> !e.DependenciesAdded?
    ensures RecordsEdges(s, s.(trace := s.trace + events))
  {
    assert (s.trace + events)[|s.trace|..] == events;
    EdgesOfNone(events);
  }

  lemma AdmitRecordsEdges(s: State, id: OpId, delegate: bool)
    ensures RecordsEdges(s, Admit(s, id, delegate))
  {
    var tail := (if delegate then [DelegateWillAdd(id)] else []) + [Admitted(id)];
    assert Admit(s, id, delegate) == s.(trace := s.trace + tail);
    RecordsNoEdges(s, tail);
  }

  /** The edges a submission adds are exactly those of the dependency calls it records. */
  lemma {:induction false} SubmitRecordsEdges(s: State, op: Op, delegate: bool)
    ensures RecordsEdges(s, Submit(s, op, delegate))
    decreases op, 2
  {
    match op
    case Plain(id) =>
      var completed := s.(trace := s.trace + [CompletionBlockAdded(id)]);
      RecordsNoEdges(s, [CompletionBlockAdded(id)]);
      AdmitRecordsEdges(completed, id, delegate);
      RecordsEdgesTrans(s, completed, Submit(s, op, delegate));
    case Operation(id, _, _, _, _, _) =>
      var prepared := Prepare(s, op, delegate);
      var enqueued := prepared.(trace := prepared.trace + [WillEnqueue(id)]);
      PrepareRecordsEdges(s, op, delegate);
      RecordsNoEdges(prepared, [WillEnqueue(id)]);
      RecordsEdgesTrans(s, prepared, enqueued);
      AdmitRecordsEdges(enqueued, id, delegate);
      RecordsEdgesTrans(s, enqueued, Submit(s, op, delegate));
  }

  lemma {:induction false} PrepareRecordsEdges(s: State, op: Op, delegate: bool)
    requires op.Operation?
    ensures RecordsEdges(s, Prepare(s, op, delegate))
    decreases op, 1
  {
    var observed := s.(trace := s.trace + ObserverEvents(op.id));
    RecordsNoEdges(s, ObserverEvents(op.id));
    if |op.conditions| > 0 {
      GateRecordsEdges(observed, op, delegate);
      RecordsEdgesTrans(s, observed, Prepare(s, op, delegate));
    }
  }

  lemma {:induction false} GateRecordsEdges(s: State, op: Op, delegate: bool)
    requires op.Operation?
    ensures RecordsEdges(s, Gate(s, op, delegate))
    decreases op, 0
  {
    var registered := Register(s.holders, {}, op.id, MutuallyExclusive(op.conditions));
    var exclusive := s.(holders := registered.0);
    var indirect := op.indirectDependencies;
    var wired := Wire(exclusive, op, registered.1);
    var dependenciesAdded := if |indirect| == 0 then exclusive else SubmitAll(wired, indirect, delegate);
    assert Gate(s, op, delegate) == Submit(dependenciesAdded, op.evaluator, delegate);
    assert RecordsEdges(s, exclusive) by {
      assert s.trace[|s.trace|..] == [];
    }
    if |indirect| > 0 {
      WireRecordsEdges(exclusive, op, registered.1);
      SubmitAllRecordsEdges(wired, indirect, delegate);
      RecordsEdgesTrans(exclusive, wired, dependenciesAdded);
    }
    RecordsEdgesTrans(s, exclusive, dependenciesAdded);
    SubmitRecordsEdges(dependenciesAdded, op.evaluator, delegate);
    RecordsEdgesTrans(s, dependenciesAdded, Gate(s, op, delegate));
  }

  /** The wiring records one call per group of edges it adds. */
  lemma WireRecordsEdges(s: State, op: Op, previous: set<OpId>)
    requires op.Operation?
    ensures RecordsEdges(s, Wire(s, op, previous))
  {
    var indirect := op.indirectDependencies;
    assert Wire(s, op, previous).trace[|s.trace|..] == WiringEvents(indirect, previous, op.directDependencies, op.evaluator.id);
    WiringRecorded(indirect, previous, op.directDependencies, op.evaluator.id);
  }

  lemma {:induction false} SubmitAllRecordsEdges(s: State, ops: seq<Op>, delegate: bool)
    ensures RecordsEdges(s, SubmitAll(s, ops, delegate))
    decreases ops
  {
    if ops != [] {
      var next := Submit(s, ops[0], delegate);
      SubmitRecordsEdges(s, ops[0], delegate);
      SubmitAllRecordsEdges(next, ops[1..], delegate);
      RecordsEdgesTrans(s, next, SubmitAll(s, ops, delegate));
    } else {
      assert s.trace[|s.trace|..] == [];
    }
  }

  /** Every call that adds dependencies to an operation is followed by that operation's admission. */
  predicate WiredBeforeAdmitted(events: seq<Event>)
  {
    forall i :: 0 <= i < |events| && events[i].DependenciesAdded? ==> events[i].op in Admissions(events[i + 1..])
  }

  lemma WiredBeforeAdmittedPrefix(calls: seq<Event>, rest: seq<Event>)
    requires forall e :: e in calls && e.DependenciesAdded? ==> e.op in Admissions(rest)
    requires WiredBeforeAdmitted(rest)
    ensures WiredBeforeAdmitted(calls + rest)
  {
    var events := calls + rest;
    forall i | 0 <= i < |events| && events[i].DependenciesAdded?
      ensures events[i].op in Admissions(events[i + 1..])
    {
      if i < |calls| {
        assert events[i] == calls[i];
        assert events[i + 1..] == calls[i + 1..] + rest;
        AdmissionsAppend(calls[i + 1..], rest);
      } else {
        assert events[i + 1..] == rest[i - |calls| + 1..];
        assert events[i] == rest[i - |calls|];
      }
    }
  }

  lemma WiredBeforeAdmittedJoin(t: seq<Event>, u: seq<Event>, v: seq<Event>)
    requires t <= u <= v
    requires WiredBeforeAdmitted(u[|t|..]) && WiredBeforeAdmitted(v[|u|..])
    ensures WiredBeforeAdmitted(v[|t|..])
  {
    var a := u[|t|..];
    var b := v[|u|..];
    var events: seq<Event> := a + b;
    assert v[|t|..] == events;
    forall i | 0 <= i < |events| && events[i].DependenciesAdded?
      ensures events[i].op in Admissions(events[i + 1..])
    {
      if i < |a| {
        assert events[i + 1..] == a[i + 1..] + b;
        AdmissionsAppend(a[i + 1..], b);
      } else {
        assert events[i + 1..] == b[i - |a| + 1..];
        assert events[i] == b[i - |a|];
      }
    }
  }

  /** The new events of `u` over `t` admit what `u` admits beyond `t`. */
  lemma AdmissionsOfRest(t: seq<Event>, u: seq<Event>, added: seq<OpId>)
    requires t <= u && Admissions(u) == Admissions(t) + added
    ensures Admissions(u[|t|..]) == added
  {
    assert u == t + u[|t|..];
    AdmissionsAppend(t, u[|t|..]);
    assert Admissions(u)[|Admissions(t)|..] == added;
  }

  lemma AdmissionOrderEndsWithOperation(op: Op)
    ensures |AdmissionOrder(op)| > 0 && AdmissionOrder(op)[|AdmissionOrder(op)| - 1] == op.id
  {
    match op
    case Plain(_) =>
    case Operation(_, _, _, _, _, _) =>
  }

  lemma {:induction false} BatchAdmitsEachOperation(ops: seq<Op>, o: Op)
    requires o in ops
    ensures o.id in AdmissionOrderAll(ops)
    decreases ops
  {
    if o == ops[0] {
      AdmissionOrderEndsWithOperation(o);
      assert AdmissionOrder(o)[|AdmissionOrder(o)| - 1] in AdmissionOrder(o);
    } else {
      BatchAdmitsEachOperation(ops[1..], o);
    }
  }

  /** The last steps of a submission add no dependency. */
  lemma AdmitWiresNothing(s: State, id: OpId, delegate: bool)
    ensures var r := Admit(s, id, delegate).trace;
      s.trace <= r && WiredBeforeAdmitted(r[|s.trace|..])
  {
    var r := Admit(s, id, delegate).trace;
    assert r[|s.trace|..] == (if delegate then [DelegateWillAdd(id)] else []) + [Admitted(id)];
  }

  /** Within a submission, every operation given dependencies is admitted after the call that gave them. */
  lemma {:induction false} SubmitWiresBeforeAdmitting(s: State, op: Op, delegate: bool)
    ensures var r := Submit(s, op, delegate).trace;
      |s.trace| <= |r| && WiredBeforeAdmitted(r[|s.trace|..])
    decreases op, 2
  {
    var r := Submit(s, op, delegate).trace;
    var before := if op.Plain? then s.trace + [CompletionBlockAdded(op.id)]
                  else Prepare(s, op, delegate).trace + [WillEnqueue(op.id)];
    assert r == Admit(s.(trace := before), op.id, delegate).trace;
    AdmitWiresNothing(s.(trace := before), op.id, delegate);
    if op.Plain? {
      assert before[|s.trace|..] == [CompletionBlockAdded(op.id)];
    } else {
      var prepared := Prepare(s, op, delegate).trace;
      PrepareWiresBeforeAdmitting(s, op, delegate);
      assert before[|prepared|..] == [WillEnqueue(op.id)];
      WiredBeforeAdmittedJoin(s.trace, prepared, before);
    }
    WiredBeforeAdmittedJoin(s.trace, before, r);
  }

  lemma {:induction false} PrepareWiresBeforeAdmitting(s: State, op: Op, delegate: bool)
    requires op.Operation?
    ensures var r := Prepare(s, op, delegate).trace;
      |s.trace| <= |r| && WiredBeforeAdmitted(r[|s.trace|..])
    decreases op, 1
  {
    var observed := s.(trace := s.trace + ObserverEvents(op.id));
    var r := Prepare(s, op, delegate).trace;
    assert observed.trace[|s.trace|..] == ObserverEvents(op.id);
    if |op.conditions| > 0 {
      GateWiresBeforeAdmitting(observed, op, delegate);
      WiredBeforeAdmittedJoin(s.trace, observed.trace, r);
    }
  }

  lemma {:induction false} GateWiresBeforeAdmitting(s: State, op: Op, delegate: bool)
    requires op.Operation?
    ensures var r := Gate(s, op, delegate).trace;
      |s.trace| <= |r| && WiredBeforeAdmitted(r[|s.trace|..])
    decreases op, 0
  {
    var registered := Register(s.holders, {}, op.id, MutuallyExclusive(op.conditions));
    var exclusive := s.(holders := registered.0);
    var indirect := op.indirectDependencies;
    var wired := Wire(exclusive, op, registered.1);
    var dependenciesAdded := if |indirect| == 0 then exclusive else SubmitAll(wired, indirect, delegate);
    var r := Gate(s, op, delegate).trace;
    assert r == Submit(dependenciesAdded, op.evaluator, delegate).trace;
    SubmitWiresBeforeAdmitting(dependenciesAdded, op.evaluator, delegate);
    if |indirect| > 0 {
      SubmitAllWiresBeforeAdmitting(wired, indirect, delegate);
      WiredBeforeAdmittedJoin(wired.trace, dependenciesAdded.trace, r);
      WiringPrecedesSubmission(exclusive, op, registered.1, delegate);
    } else {
      assert dependenciesAdded.trace == s.trace;
    }
  }

  /**
   The wiring calls come before the submissions of the indirect dependencies
   and the evaluator, and each operation they give dependencies is admitted
   there.
   */
  lemma WiringPrecedesSubmission(s: State, op: Op, previous: set<OpId>, delegate: bool)
    requires op.Operation? && |op.indirectDependencies| > 0
    requires var wired := Wire(s, op, previous);
      var r := Submit(SubmitAll(wired, op.indirectDependencies, delegate), op.evaluator, delegate).trace;
      |wired.trace| <= |r| && WiredBeforeAdmitted(r[|wired.trace|..])
    ensures var r := Submit(SubmitAll(Wire(s, op, previous), op.indirectDependencies, delegate), op.evaluator, delegate).trace;
      |s.trace| <= |r| && WiredBeforeAdmitted(r[|s.trace|..])
  {
    var indirect := op.indirectDependencies;
    var wired := Wire(s, op, previous);
    var r := Submit(SubmitAll(wired, indirect, delegate), op.evaluator, delegate).trace;
    var calls := WiringEvents(indirect, previous, op.directDependencies, op.evaluator.id);
    var rest := r[|wired.trace|..];
    assert wired.trace == s.trace + calls;
    assert r[|s.trace|..] == calls + rest;
    AdmittedAfterWiring(wired, op, delegate);
    WiringEventsAbout(indirect, previous, op.directDependencies, op.evaluator.id);
    forall e | e in calls && e.DependenciesAdded?
      ensures e.op in Admissions(rest)
    {
      if e.op != op.evaluator.id {
        var o :| o in indirect && e.op == o.id;
      }
    }
    WiredBeforeAdmittedPrefix(calls, rest);
  }

  /** After the wiring, the indirect dependencies and the evaluator are all admitted. */
  lemma AdmittedAfterWiring(s: State, op: Op, delegate: bool)
    requires op.Operation? && |op.indirectDependencies| > 0
    ensures var r := Submit(SubmitAll(s, op.indirectDependencies, delegate), op.evaluator, delegate).trace;
      var admitted := Admissions(r[|s.trace|..]);
      |s.trace| <= |r| && op.evaluator.id in admitted && forall o :: o in op.indirectDependencies ==> o.id in admitted
  {
    var indirect := op.indirectDependencies;
    var batch := SubmitAll(s, indirect, delegate);
    var r := Submit(batch, op.evaluator, delegate).trace;
    SubmitAllAdmits(s, indirect, delegate);
    SubmitAdmits(batch, op.evaluator, delegate);
    AdmissionsOfRest(s.trace, r, AdmissionOrderAll(indirect) + AdmissionOrder(op.evaluator));
    AdmissionOrderEndsWithOperation(op.evaluator);
    assert op.evaluator.id in AdmissionOrder(op.evaluator);
    forall o | o in indirect
      ensures o.id in AdmissionOrderAll(indirect)
    {
      BatchAdmitsEachOperation(indirect, o);
    }
  }

  lemma {:induction false} SubmitAllWiresBeforeAdmitting(s: State, ops: seq<Op>, delegate: bool)
    ensures var r := SubmitAll(s, ops, delegate).trace;
      |s.trace| <= |r| && WiredBeforeAdmitted(r[|s.trace|..])
    decreases ops
  {
    var r := SubmitAll(s, ops, delegate).trace;
    if ops != [] {
      var next := Submit(s, ops[0], delegate);
      SubmitWiresBeforeAdmitting(s, ops[0], delegate);
      SubmitAllWiresBeforeAdmitting(next, ops[1..], delegate);
      WiredBeforeAdmittedJoin(s.trace, next.trace, r);
    } else {
      assert r[|s.trace|..] == [];
    }
  }

  /**
   Every edge (a, b) a submission adds comes from a recorded call that gave `a`
   the prerequisite `b`, and `a` is admitted after that call: dependencies are
   added before the operations they constrain are enqueued.
   */
  lemma EdgesAddedBeforeAdmission(s: State, op: Op, delegate: bool, a: OpId, b: OpId)
    requires (a, b) in Submit(s, op, delegate).edges && (a, b) !in s.edges
    ensures var r := Submit(s, op, delegate).trace;
      var added := r[|s.trace|..];
      |s.trace| <= |r| &&
      exists i :: 0 <= i < |added| && added[i].DependenciesAdded? && added[i].op == a && b in added[i].prerequisites
                  && a in Admissions(added[i + 1..])
  {
    var r := Submit(s, op, delegate).trace;
    SubmitRecordsEdges(s, op, delegate);
    SubmitWiresBeforeAdmitting(s, op, delegate);
    EdgesOfEvent(r[|s.trace|..], a, b);
  }

  // ----- Observers -----

  /** The first three events of a submission of an Operation attach its three observers, in order. */
  lemma ObserversAttachedFirst(s: State, op: Op, delegate: bool)
    requires op.Operation?
    ensures var r := Submit(s, op, delegate).trace;
      |r| >= |s.trace| + 3 && r[|s.trace|..|s.trace| + 3] == ObserverEvents(op.id)
  {
    var observed := s.trace + ObserverEvents(op.id);
    var prepared := Prepare(s, op, delegate);
    var r := Submit(s, op, delegate).trace;
    assert observed <= prepared.trace <= r;
    assert r[|s.trace|..|s.trace| + 3] == observed[|s.trace|..|s.trace| + 3];
  }

  /** Events recorded in two stretches, each about `ids`, are about `ids` together. */
  lemma ConcernsWiden(events: seq<Event>, ids: set<OpId>, wider: set<OpId>)
    requires Concerns(events, ids) && ids <= wider
    ensures Concerns(events, wider)
  {
  }

  lemma ConcernsJoin(t: seq<Event>, u: seq<Event>, v: seq<Event>, ids: set<OpId>)
    requires t <= u <= v
    requires Concerns(u[|t|..], ids) && Concerns(v[|u|..], ids)
    ensures Concerns(v[|t|..], ids)
  {
    assert v[|t|..] == u[|t|..] + v[|u|..];
  }

  /** The last steps of a submission record events about the admitted operation only. */
  lemma AdmitEventsConcern(s: State, id: OpId, delegate: bool, ids: set<OpId>)
    requires id in ids
    ensures var r := Admit(s, id, delegate).trace;
      s.trace <= r && Concerns(r[|s.trace|..], ids)
  {
    var r := Admit(s, id, delegate).trace;
    assert r[|s.trace|..] == (if delegate then [DelegateWillAdd(id)] else []) + [Admitted(id)];
  }

  /** Every event a submission records is about an operation the submission reaches. */
  lemma {:induction false} SubmitEventsConcern(s: State, op: Op, delegate: bool)
    ensures var r := Submit(s, op, delegate).trace;
      |s.trace| <= |r| && Concerns(r[|s.trace|..], Ids(op))
    decreases op, 2
  {
    var r := Submit(s, op, delegate).trace;
    assert op.id in Ids(op);
    var before := if op.Plain? then s.trace + [CompletionBlockAdded(op.id)]
                  else Prepare(s, op, delegate).trace + [WillEnqueue(op.id)];
    assert r == Admit(s.(trace := before), op.id, delegate).trace;
    AdmitEventsConcern(s.(trace := before), op.id, delegate, Ids(op));
    if op.Plain? {
      assert before[|s.trace|..] == [CompletionBlockAdded(op.id)];
    } else {
      var prepared := Prepare(s, op, delegate).trace;
      PrepareEventsConcern(s, op, delegate);
      assert before[|prepared|..] == [WillEnqueue(op.id)];
      ConcernsJoin(s.trace, prepared, before, Ids(op));
    }
    ConcernsJoin(s.trace, before, r, Ids(op));
  }

  lemma {:induction false} PrepareEventsConcern(s: State, op: Op, delegate: bool)
    requires op.Operation?
    ensures var r := Prepare(s, op, delegate).trace;
      |s.trace| <= |r| && Concerns(r[|s.trace|..], Ids(op))
    decreases op, 1
  {
    var observed := s.trace + ObserverEvents(op.id);
    var r := Prepare(s, op, delegate).trace;
    assert op.id in Ids(op);
    assert observed[|s.trace|..] == ObserverEvents(op.id);
    assert Concerns(observed[|s.trace|..], Ids(op));
    if |op.conditions| > 0 {
      GateEventsConcern(s.(trace := observed), op, delegate);
      ConditionIdsReached(op);
      ConcernsWiden(r[|observed|..], ConditionIds(op), Ids(op));
      ConcernsJoin(s.trace, observed, r, Ids(op));
    }
  }

  /** With conditions, the operations a submission reaches below `op` are the ones its conditions consult. */
  lemma ConditionIdsReached(op: Op)
    requires op.Operation? && |op.conditions| > 0
    ensures NestedIds(op) == ConditionIds(op) && ConditionIds(op) <= Ids(op)
  {
  }

  lemma {:induction false} GateEventsConcern(s: State, op: Op, delegate: bool)
    requires op.Operation?
    ensures var r := Gate(s, op, delegate).trace;
      |s.trace| <= |r| && Concerns(r[|s.trace|..], ConditionIds(op))
    decreases op, 0
  {
    var registered := Register(s.holders, {}, op.id, MutuallyExclusive(op.conditions));
    var exclusive := s.(holders := registered.0);
    var indirect := op.indirectDependencies;
    var wired := Wire(exclusive, op, registered.1);
    var dependenciesAdded := if |indirect| == 0 then exclusive else SubmitAll(wired, indirect, delegate);
    if |indirect| > 0 {
      WireEventsConcern(exclusive, op, registered.1);
      SubmitAllEventsConcern(wired, indirect, delegate);
      ConcernsJoin(s.trace, wired.trace, dependenciesAdded.trace, ConditionIds(op));
    } else {
      assert dependenciesAdded.trace[|s.trace|..] == [];
    }
    SubmitEventsConcern(dependenciesAdded, op.evaluator, delegate);
    var r := Gate(s, op, delegate).trace;
    assert r == Submit(dependenciesAdded, op.evaluator, delegate).trace;
    ConcernsJoin(s.trace, dependenciesAdded.trace, r, ConditionIds(op));
  }

  /** The recorded wiring calls concern the indirect dependencies and the evaluator only. */
  lemma WireEventsConcern(s: State, op: Op, previous: set<OpId>)
    requires op.Operation?
    ensures var r := Wire(s, op, previous).trace;
      |s.trace| <= |r| && Concerns(r[|s.trace|..], ConditionIds(op))
  {
    var indirect := op.indirectDependencies;
    var calls := WiringEvents(indirect, previous, op.directDependencies, op.evaluator.id);
    assert Wire(s, op, previous).trace[|s.trace|..] == calls;
    WiringEventsAbout(indirect, previous, op.directDependencies, op.evaluator.id);
    forall e | e in calls
      ensures e.op in ConditionIds(op)
    {
      if e.op != op.evaluator.id {
        var o :| o in indirect && e.op == o.id;
        var i :| 0 <= i < |indirect| && indirect[i] == o;
        IdsAllContains(indirect, i);
      }
    }
  }

  lemma {:induction false} SubmitAllEventsConcern(s: State, ops: seq<Op>, delegate: bool)
    ensures var r := SubmitAll(s, ops, delegate).trace;
      |s.trace| <= |r| && Concerns(r[|s.trace|..], IdsAll(ops))
    decreases ops
  {
    var r := SubmitAll(s, ops, delegate).trace;
    if ops != [] {
      var next := Submit(s, ops[0], delegate);
      SubmitEventsConcern(s, ops[0], delegate);
      SubmitAllEventsConcern(next, ops[1..], delegate);
      assert IdsAll(ops) == Ids(ops[0]) + IdsAll(ops[1..]);
      ConcernsJoin(s.trace, next.trace, r, IdsAll(ops));
    } else {
      assert r[|s.trace|..] == [];
    }
  }

  /**
   A submitted Operation gets exactly three observers, in the order
   produced-operation, will-finish, did-finish, when it is distinct from the
   operations its submission reaches.
   */
  lemma ExactlyThreeObservers(s: State, op: Op, delegate: bool)
    requires op.Operation? && op.id !in NestedIds(op)
    ensures ObserversOf(Submit(s, op, delegate).trace, op.id)
         == ObserversOf(s.trace, op.id) + [ProducedOperationObserver, WillFinishObserver, DidFinishObserver]
  {
    var prepared := Prepare(s, op, delegate);
    var tail := [WillEnqueue(op.id)] + (if delegate then [DelegateWillAdd(op.id)] else []) + [Admitted(op.id)];
    assert Submit(s, op, delegate).trace == prepared.trace + tail;
    PreparedObservers(s, op, delegate);
    ObserversOfOthers(tail, op.id);
    ObserversOfAppend(prepared.trace, tail, op.id);
  }

  lemma ObserverEventsAttach(id: OpId)
    ensures ObserversOf(ObserverEvents(id), id) == [ProducedOperationObserver, WillFinishObserver, DidFinishObserver]
  {
    var events := ObserverEvents(id);
    assert ObserversOf(events[2..], id) == [DidFinishObserver] by {
      assert events[2..][1..] == [];
    }
    assert events[1..][1..] == events[2..];
  }

  /** Preparing an Operation attaches its three observers and no other observer to it. */
  lemma PreparedObservers(s: State, op: Op, delegate: bool)
    requires op.Operation? && op.id !in NestedIds(op)
    ensures ObserversOf(Prepare(s, op, delegate).trace, op.id)
         == ObserversOf(s.trace, op.id) + [ProducedOperationObserver, WillFinishObserver, DidFinishObserver]
  {
    var observed := s.trace + ObserverEvents(op.id);
    ObserversOfAppend(s.trace, ObserverEvents(op.id), op.id);
    ObserverEventsAttach(op.id);
    if |op.conditions| > 0 {
      var prepared := Gate(s.(trace := observed), op, delegate);
      var middle := prepared.trace[|observed|..];
      assert prepared.trace == observed + middle;
      GateEventsConcern(s.(trace := observed), op, delegate);
      assert NestedIds(op) == ConditionIds(op);
      ObserversOfOthers(middle, op.id);
      ObserversOfAppend(observed, middle, op.id);
    }
  }

  /**
   A plain NSOperation gets no observers and no condition processing: only a
   completion block, then the delegate's willAdd and admission.
   */
  lemma PlainOperationGetsCompletionBlockOnly(s: State, op: Op, delegate: bool)
    requires op.Plain?
    ensures var r := Submit(s, op, delegate);
      && r.holders == s.holders && r.edges == s.edges
      && r.trace == s.trace + [CompletionBlockAdded(op.id)] + (if delegate then [DelegateWillAdd(op.id)] else []) + [Admitted(op.id)]
      && ObserversOf(r.trace, op.id) == ObserversOf(s.trace, op.id)
  {
    var r := Submit(s, op, delegate);
    var added := [CompletionBlockAdded(op.id)] + (if delegate then [DelegateWillAdd(op.id)] else []) + [Admitted(op.id)];
    assert r.trace == s.trace + added;
    ObserversOfAppend(s.trace, added, op.id);
    ObserversOfOthers(added, op.id);
  }

  /** An Operation with no conditions changes neither the registry nor the edges; only it is admitted. */
  lemma NoConditionsOnlyAdmission(s: State, op: Op, delegate: bool)
    requires op.Operation? && op.conditions == []
    ensures var r := Submit(s, op, delegate);
      && r.holders == s.holders && r.edges == s.edges
      && r.trace == s.trace + ObserverEvents(op.id) + [WillEnqueue(op.id)]
                    + (if delegate then [DelegateWillAdd(op.id)] else []) + [Admitted(op.id)]
      && Admissions(r.trace) == Admissions(s.trace) + [op.id]
  {
    SubmitAdmits(s, op, delegate);
  }

  // ----- Exclusivity registry -----

  /** A submission leaves the holder of every category it does not register untouched. */
  lemma {:induction false} SubmitLeavesOtherCategories(s: State, op: Op, delegate: bool)
    ensures Submit(s, op, delegate).holders - Categories(op) == s.holders - Categories(op)
    decreases op, 1
  {
    match op
    case Plain(_) =>
    case Operation(id, _, conditions, _, _, _) =>
      var observed := s.(trace := s.trace + ObserverEvents(id));
      assert Submit(s, op, delegate).holders == Prepare(s, op, delegate).holders;
      if |conditions| > 0 {
        GateLeavesOtherCategories(observed, op, delegate);
      }
  }

  lemma {:induction false} GateLeavesOtherCategories(s: State, op: Op, delegate: bool)
    requires op.Operation? && |op.conditions| > 0
    ensures Gate(s, op, delegate).holders - Categories(op) == s.holders - Categories(op)
    decreases op, 0
  {
    var exclusiveConditions := MutuallyExclusive(op.conditions);
    var registered := Register(s.holders, {}, op.id, exclusiveConditions);
    var exclusive := s.(holders := registered.0);
    var indirect := op.indirectDependencies;
    var wired := Wire(exclusive, op, registered.1);
    var dependenciesAdded := if |indirect| == 0 then exclusive else SubmitAll(wired, indirect, delegate);
    var r := Gate(s, op, delegate);
    assert r == Submit(dependenciesAdded, op.evaluator, delegate);
    var all := Categories(op);
    assert NestedCategories(op) == CategoriesAll(indirect) + Categories(op.evaluator);
    assert all == CategorySet(exclusiveConditions) + CategoriesAll(indirect) + Categories(op.evaluator);
    RegisterLeavesOthers(s.holders, op.id, exclusiveConditions);
    DifferenceWiden(registered.0, s.holders, CategorySet(exclusiveConditions), all);
    if |indirect| > 0 {
      SubmitAllLeavesOtherCategories(wired, indirect, delegate);
      DifferenceWiden(dependenciesAdded.holders, registered.0, CategoriesAll(indirect), all);
    }
    SubmitLeavesOtherCategories(dependenciesAdded, op.evaluator, delegate);
    DifferenceWiden(r.holders, dependenciesAdded.holders, Categories(op.evaluator), all);
  }

  /** Registration leaves every category outside the registered ones as it was. */
  lemma RegisterLeavesOthers(holders: map<Category, OpId>, id: OpId, exclusive: seq<Condition>)
    ensures Register(holders, {}, id, exclusive).0 - CategorySet(exclusive) == holders - CategorySet(exclusive)
  {
    RegisterRecordsHolder(holders, {}, id, exclusive);
  }

  /** Two registries that agree outside `a` agree outside any `b` containing `a`. */
  lemma DifferenceWiden(m1: map<Category, OpId>, m2: map<Category, OpId>, a: set<Category>, b: set<Category>)
    requires m1 - a == m2 - a && a <= b
    ensures m1 - b == m2 - b
  {
    forall c | c !in b
      ensures (c in m1 <==> c in m2) && (c in m1 ==> m1[c] == m2[c])
    {
      assert c in m1 <==> c in m1 - a;
      assert c in m2 <==> c in m2 - a;
      if c in m1 {
        assert (m1 - a)[c] == m1[c];
        assert (m2 - a)[c] == m2[c];
      }
    }
  }


  lemma {:induction false} SubmitAllLeavesOtherCategories(s: State, ops: seq<Op>, delegate: bool)
    ensures SubmitAll(s, ops, delegate).holders - CategoriesAll(ops) == s.holders - CategoriesAll(ops)
    decreases ops
  {
    if ops != [] {
      var next := Submit(s, ops[0], delegate);
      SubmitLeavesOtherCategories(s, ops[0], delegate);
      SubmitAllLeavesOtherCategories(next, ops[1..], delegate);
      assert SubmitAll(s, ops, delegate) == SubmitAll(next, ops[1..], delegate);
      assert CategoriesAll(ops) == Categories(ops[0]) + CategoriesAll(ops[1..]);
      HoldersOutsideChain(s.holders, next.holders, SubmitAll(s, ops, delegate).holders,
        Categories(ops[0]), CategoriesAll(ops[1..]));
    }
  }

  /** Two steps that each keep the registry outside a set of categories keep it outside their union. */
  lemma HoldersOutsideChain(a: map<Category, OpId>, b: map<Category, OpId>, c: map<Category, OpId>,
                            first: set<Category>, second: set<Category>)
    requires b - first == a - first && c - second == b - second
    ensures c - (first + second) == a - (first + second)
  {
    forall k | k !in first + second
      ensures (k in c <==> k in a) && (k in a ==> c[k] == a[k])
    {
      assert k in c <==> k in c - second;
      assert k in b <==> k in b - second;
      assert k in b <==> k in b - first;
      assert k in a <==> k in a - first;
    }
  }

  /**
   After submission, every mutually exclusive category of the operation is
   held by the operation, unless what the submission reaches in turn registers
   that category again.
   */
  lemma SubmitRegistersOwnCategories(s: State, op: Op, delegate: bool)
    requires op.Operation?
    ensures var r := Submit(s, op, delegate);
      forall k :: k in op.conditions && k.mutuallyExclusive && k.category !in NestedCategories(op)
        ==> k.category in r.holders && r.holders[k.category] == op.id
  {
    if |op.conditions| > 0 {
      var observed := s.(trace := s.trace + ObserverEvents(op.id));
      var exclusiveConditions := MutuallyExclusive(op.conditions);
      var registered := Register(observed.holders, {}, op.id, exclusiveConditions);
      RegisterRecordsHolder(observed.holders, {}, op.id, exclusiveConditions);
      var exclusive := observed.(holders := registered.0);
      var indirect := op.indirectDependencies;
      var wired := Wire(exclusive, op, registered.1);
      var dependenciesAdded := if |indirect| == 0 then exclusive else SubmitAll(wired, indirect, delegate);
      if |indirect| > 0 {
        SubmitAllLeavesOtherCategories(wired, indirect, delegate);
      }
      SubmitLeavesOtherCategories(dependenciesAdded, op.evaluator, delegate);
      var r := Submit(s, op, delegate);
      assert r.holders == Prepare(s, op, delegate).holders == Gate(observed, op, delegate).holders;
      forall k | k in op.conditions && k.mutuallyExclusive && k.category !in NestedCategories(op)
        ensures k.category in r.holders && r.holders[k.category] == op.id
      {
        var c := k.category;
        assert k in exclusiveConditions;
        assert c !in CategoriesAll(indirect) && c !in Categories(op.evaluator);
        assert c in registered.0 && registered.0[c] == op.id;
        assert c in dependenciesAdded.holders - CategoriesAll(indirect) by {
          if |indirect| > 0 {
            assert c in wired.holders - CategoriesAll(indirect);
          }
        }
        assert c in dependenciesAdded.holders - Categories(op.evaluator);
        assert c in r.holders - Categories(op.evaluator);
      }
    }
  }

  // ----- Dependency wiring -----

  /**
   The wiring adds exactly: each indirect dependency after each previous
   holder and each direct dependency, and the evaluator after each indirect
   dependency.
   */
  lemma {:induction false} WiringEdges(indirect: seq<Op>, previous: set<OpId>, direct: set<OpId>, evaluator: OpId, a: OpId, b: OpId)
    ensures (a, b) in Wiring(indirect, previous, direct, evaluator)
        <==> exists i :: 0 <= i < |indirect|
               && ((a == indirect[i].id && (b in previous || b in direct)) || (a == evaluator && b == indirect[i].id))
    decreases |indirect|
  {
    if indirect != [] {
      var n := |indirect| - 1;
      var front := indirect[..n];
      WiringEdges(front, previous, direct, evaluator, a, b);
      if (a, b) in Wiring(indirect, previous, direct, evaluator) {
        if (a, b) !in Wiring(front, previous, direct, evaluator) {
          assert (a, b) in DependencyEdges(indirect[n].id, previous, direct, evaluator);
        } else {
          var i :| 0 <= i < |front|
            && ((a == front[i].id && (b in previous || b in direct)) || (a == evaluator && b == front[i].id));
          assert indirect[i] == front[i];
        }
      }
      if exists i :: 0 <= i < |indirect|
           && ((a == indirect[i].id && (b in previous || b in direct)) || (a == evaluator && b == indirect[i].id)) {
        var i :| 0 <= i < |indirect|
          && ((a == indirect[i].id && (b in previous || b in direct)) || (a == evaluator && b == indirect[i].id));
        if i < n {
          assert front[i] == indirect[i];
        } else {
          assert (a, b) in DependencyEdges(indirect[n].id, previous, direct, evaluator);
        }
      }
    }
  }

  /**
   The wiring makes an operation depend on itself exactly when an indirect
   dependency is also a previous holder, a direct dependency or the evaluator.
   */
  lemma WiringSelfEdge(indirect: seq<Op>, previous: set<OpId>, direct: set<OpId>, evaluator: OpId, x: OpId)
    ensures (x, x) in Wiring(indirect, previous, direct, evaluator)
        <==> exists i :: 0 <= i < |indirect| && indirect[i].id == x && (x in previous || x in direct || x == evaluator)
  {
    WiringEdges(indirect, previous, direct, evaluator, x, x);
  }

  /** Submitting an Operation with indirect dependencies keeps all of their wiring. */
  lemma SubmitKeepsWiring(s: State, op: Op, delegate: bool)
    requires op.Operation? && |op.conditions| > 0 && |op.indirectDependencies| > 0
    ensures Wiring(op.indirectDependencies, PreviousHolders(s, op), op.directDependencies, op.evaluator.id)
      <= Submit(s, op, delegate).edges
  {
    var observed := s.(trace := s.trace + ObserverEvents(op.id));
    var registered := Register(observed.holders, {}, op.id, MutuallyExclusive(op.conditions));
    var exclusive := observed.(holders := registered.0);
    var wired := Wire(exclusive, op, registered.1);
    var dependenciesAdded := SubmitAll(wired, op.indirectDependencies, delegate);
    assert Wiring(op.indirectDependencies, registered.1, op.directDependencies, op.evaluator.id) <= wired.edges;
    assert wired.edges <= dependenciesAdded.edges;
    assert Gate(observed, op, delegate) == Submit(dependenciesAdded, op.evaluator, delegate);
    assert dependenciesAdded.edges <= Gate(observed, op, delegate).edges;
    assert Gate(observed, op, delegate) == Prepare(s, op, delegate);
  }

  /**
   After submitting an Operation with conditions, every indirect dependency
   depends on each previous holder and each direct dependency, and the
   evaluator depends on every indirect dependency.
   */
  lemma SubmitWiresIndirectDependencies(s: State, op: Op, delegate: bool)
    requires op.Operation? && |op.conditions| > 0
    ensures var r := Submit(s, op, delegate);
      var indirect := op.indirectDependencies;
      forall i :: 0 <= i < |indirect| ==>
        && (forall p :: p in PreviousHolders(s, op) ==> (indirect[i].id, p) in r.edges)
        && (forall x :: x in op.directDependencies ==> (indirect[i].id, x) in r.edges)
        && (op.evaluator.id, indirect[i].id) in r.edges
  {
    var previous := PreviousHolders(s, op);
    var indirect := op.indirectDependencies;
    var r := Submit(s, op, delegate);
    if |indirect| > 0 {
      SubmitKeepsWiring(s, op, delegate);
      forall i, p | 0 <= i < |indirect| && (p in previous || p in op.directDependencies)
        ensures (indirect[i].id, p) in r.edges
      {
        WiringEdges(indirect, previous, op.directDependencies, op.evaluator.id, indirect[i].id, p);
      }
      forall i | 0 <= i < |indirect|
        ensures (op.evaluator.id, indirect[i].id) in r.edges
      {
        WiringEdges(indirect, previous, op.directDependencies, op.evaluator.id, op.evaluator.id, indirect[i].id);
      }
    }
  }

  /**
   An Operation that is among its own previous holders (a repeated category,
   or a category it already held) makes each indirect dependency depend on
   the Operation itself while the evaluator depends on that indirect
   dependency. That is no self-edge; it closes a cycle only together with
   the Operation's dependency on its evaluator, which is arranged outside
   this queue.
   */
  lemma OwnHolderWiresBackToOperation(s: State, op: Op, delegate: bool)
    requires op.Operation? && |op.conditions| > 0 && op.id in PreviousHolders(s, op)
    ensures var r := Submit(s, op, delegate);
      var indirect := op.indirectDependencies;
      forall i :: 0 <= i < |indirect| ==>
        (indirect[i].id, op.id) in r.edges && (op.evaluator.id, indirect[i].id) in r.edges
  {
    SubmitWiresIndirectDependencies(s, op, delegate);
  }

  /** Two mutually exclusive conditions of the Operation sharing a category are enough for that. */
  lemma RepeatedCategoryWiresBackToOperation(s: State, op: Op, delegate: bool)
    requires op.Operation? && ExclusiveCategoryRepeats(op.conditions)
    ensures var r := Submit(s, op, delegate);
      var indirect := op.indirectDependencies;
      forall i :: 0 <= i < |indirect| ==>
        (indirect[i].id, op.id) in r.edges && (op.evaluator.id, indirect[i].id) in r.edges
  {
    var exclusiveConditions := MutuallyExclusive(op.conditions);
    RepeatAmongExclusive(op.conditions);
    assert |op.conditions| > 0;
    OperationAmongPreviousHolders(s.holders, op.id, exclusiveConditions);
    OwnHolderWiresBackToOperation(s, op, delegate);
  }

  lemma IdsAllContains(ops: seq<Op>, i: nat)
    requires i < |ops|
    ensures Ids(ops[i]) <= IdsAll(ops)
  {
    if i > 0 {
      IdsAllContains(ops[1..], i - 1);
    }
  }

  /** Every edge a submission adds leaves from an operation the submission reaches, never from the Operation itself. */
  lemma {:induction false} SubmitEdgesLeaveNested(s: State, op: Op, delegate: bool)
    ensures forall e :: e in Submit(s, op, delegate).edges && e !in s.edges ==> e.0 in NestedIds(op)
    decreases op, 1
  {
    match op
    case Plain(_) =>
    case Operation(id, _, conditions, _, _, _) =>
      var observed := s.(trace := s.trace + ObserverEvents(id));
      assert Submit(s, op, delegate).edges == Prepare(s, op, delegate).edges;
      if |conditions| > 0 {
        GateEdgesLeaveNested(observed, op, delegate);
        assert NestedIds(op) == ConditionIds(op);
      }
  }

  lemma {:induction false} GateEdgesLeaveNested(s: State, op: Op, delegate: bool)
    requires op.Operation?
    ensures forall e :: e in Gate(s, op, delegate).edges && e !in s.edges ==> e.0 in ConditionIds(op)
    decreases op, 0
  {
    var registered := Register(s.holders, {}, op.id, MutuallyExclusive(op.conditions));
    var exclusive := s.(holders := registered.0);
    var indirect := op.indirectDependencies;
    var wiring := Wiring(indirect, registered.1, op.directDependencies, op.evaluator.id);
    var wired := Wire(exclusive, op, registered.1);
    var dependenciesAdded := if |indirect| == 0 then exclusive else SubmitAll(wired, indirect, delegate);
    forall e | e in wiring
      ensures e.0 in ConditionIds(op)
    {
      WiringEdges(indirect, registered.1, op.directDependencies, op.evaluator.id, e.0, e.1);
      var i :| 0 <= i < |indirect|
        && ((e.0 == indirect[i].id && (e.1 in registered.1 || e.1 in op.directDependencies))
            || (e.0 == op.evaluator.id && e.1 == indirect[i].id));
      IdsAllContains(indirect, i);
    }
    if |indirect| > 0 {
      SubmitAllEdgesLeave(wired, indirect, delegate);
    }
    SubmitEdgesLeaveNested(dependenciesAdded, op.evaluator, delegate);
  }

  lemma {:induction false} SubmitAllEdgesLeave(s: State, ops: seq<Op>, delegate: bool)
    ensures forall e :: e in SubmitAll(s, ops, delegate).edges && e !in s.edges ==> e.0 in IdsAll(ops)
    decreases ops
  {
    if ops != [] {
      var next := Submit(s, ops[0], delegate);
      SubmitEdgesLeaveNested(s, ops[0], delegate);
      SubmitAllEdgesLeave(next, ops[1..], delegate);
    }
  }

  /**
   The submitted Operation itself is given no new prerequisite: in particular
   nothing here makes it depend on its evaluator.
   */
  lemma OperationGetsNoNewPrerequisite(s: State, op: Op, delegate: bool, b: OpId)
    requires op.id !in NestedIds(op)
    ensures (op.id, b) in Submit(s, op, delegate).edges ==> (op.id, b) in s.edges
  {
    SubmitEdgesLeaveNested(s, op, delegate);
  }

  /** A submission of an operation that `AddsNoEdges` describes leaves the edges as they were. */
  lemma {:induction false} NoWiringKeepsEdges(s: State, op: Op, delegate: bool)
    requires AddsNoEdges(op)
    ensures Submit(s, op, delegate).edges == s.edges
    decreases op
  {
    match op
    case Plain(_) =>
    case Operation(id, _, conditions, _, _, evaluator) =>
      if |conditions| > 0 {
        var observed := s.(trace := s.trace + ObserverEvents(id));
        var registered := Register(observed.holders, {}, id, MutuallyExclusive(conditions));
        NoWiringKeepsEdges(observed.(holders := registered.0), evaluator, delegate);
        assert Submit(s, op, delegate).edges == Prepare(s, op, delegate).edges;
      }
  }

  /**
   Without indirect dependencies the previous holders are collected but not
   wired: the submission adds no edge (given an evaluator that adds none),
   and the evaluator is still admitted, just before the operation.
   */
  lemma NoIndirectDependenciesNoWiring(s: State, op: Op, delegate: bool)
    requires op.Operation? && |op.conditions| > 0 && op.indirectDependencies == [] && AddsNoEdges(op.evaluator)
    ensures var r := Submit(s, op, delegate);
      && r.edges == s.edges
      && Admissions(r.trace) == Admissions(s.trace) + AdmissionOrder(op.evaluator) + [op.id]
  {
    NoWiringKeepsEdges(s, op, delegate);
    SubmitAdmits(s, op, delegate);
  }

  /**
   Two Operations submitted one after the other with the same exclusive
   category "db" and no indirect dependencies: the second finds the first as
   its previous holder, yet no edge orders the second after the first.
   */
  lemma SameCategoryWithoutIndirectDependencies()
    ensures var first := Operation(1, false, [Condition(true, "db")], {}, [], Plain(2));
      var second := Operation(3, false, [Condition(true, "db")], {}, [], Plain(4));
      var afterFirst := Submit(State(map[], {}, []), first, false);
      var afterSecond := Submit(afterFirst, second, false);
      && PreviousHolders(afterFirst, second) == {1}
      && afterSecond.edges == {}
      && afterSecond.holders == map["db" := 3]
  {
    var first := Operation(1, false, [Condition(true, "db")], {}, [], Plain(2));
    var second := Operation(3, false, [Condition(true, "db")], {}, [], Plain(4));
    var afterFirst := Submit(State(map[], {}, []), first, false);
    NoWiringKeepsEdges(State(map[], {}, []), first, false);
    NoWiringKeepsEdges(afterFirst, second, false);
    assert MutuallyExclusive(first.conditions) == [Condition(true, "db")];
    assert afterFirst.holders == map["db" := 1];
  }

  // ----- Produced operations -----

  /**
   A produced operation goes to the producer when the producer is a group,
   and is not admitted to the queue; otherwise it is submitted to the queue in
   full.
   */
  lemma ProducedOperationRouting(s: State, producer: Op, produced: Op, delegate: bool)
    requires producer.Operation?
    ensures var r := Produce(s, producer, produced, delegate);
      Admissions(r.trace) == Admissions(s.trace) + (if producer.isGroup then [] else AdmissionOrder(produced))
    ensures producer.isGroup ==>
      var r := Produce(s, producer, produced, delegate);
      && r.holders == s.holders && r.edges == s.edges
      && r.trace == s.trace + [AppendedToGroup(producer.id, produced.id)]
  {
    if producer.isGroup {
      AdmissionsAppend(s.trace, [AppendedToGroup(producer.id, produced.id)]);
    } else {
      SubmitAdmits(s, produced, delegate);
    }
  }
}
